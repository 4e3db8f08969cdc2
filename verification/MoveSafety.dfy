/** Reads of moved-out locals: what the validator lets through, and exactly when it does not. */
module MoveSafety {
  import opened Machine
  import opened Mir
  import opened InitFlow
  import opened MirValidator

  // ----- block arguments -----

  /** Everything consumed at position `k` of a block: the operands the validator checks and, at the
      end, the arguments passed to the successors. */
  function ConsumedAt(block: BasicBlock, k: nat): seq<Operand>
    requires k <= |block.instructions|
  {
    OperandsAt(block, k) + if k == |block.instructions| then ArgumentOperands(block.terminator) else []
  }

  ghost predicate ConsumesAt(blocks: Blocks, p: seq<BlockId>, k: nat, op: Operand) {
    Reaches(blocks, p, k) && op in ConsumedAt(blocks[p[|p| - 1]], k)
  }

  /** On every path, everything consumed is declared, was defined, and has not been dropped since or
      moved out of by an earlier block. */
  ghost predicate ConsumesReady(f: MirFunction) {
    var blocks := BlockMap(f.blocks);
    forall p, k: nat, op :: ConsumesAt(blocks, p, k, op) ==> ReadyAt(f, blocks, p, k, op)
  }

  /** The check the validator would make of a block's arguments if it made one. */
  ghost predicate ArgumentsOk(f: MirFunction, initialized: Entries, block: BasicBlock)
    requires block.id in initialized
  {
    OperandsOk(ArgumentOperands(block.terminator), f.locals, InBlock(block.instructions, initialized[block.id] + ParameterSet(block)))
  }

  ghost predicate ArgumentsOkWhereReached(f: MirFunction, initialized: Entries) {
    forall i :: 0 <= i < |f.blocks| && f.blocks[i].id in initialized ==> ArgumentsOk(f, initialized, f.blocks[i])
  }

  /** A block is in the map under its id, and has an entry set exactly if some path reaches it. */
  lemma MappedBlock(f: MirFunction, initialized: Entries, i: nat)
    requires Accepted(f, initialized) && i < |f.blocks|
    ensures f.blocks[i].id in BlockMap(f.blocks) && BlockMap(f.blocks)[f.blocks[i].id] == f.blocks[i]
    ensures f.blocks[i].id in initialized <==> Reachable(BlockMap(f.blocks), f.blocks[i].id)
  {
    hide BlockMap, BlockOk, Distinct, ArgumentsMatch, TargetsDeclared, Always;
    BlockMapFinds(f.blocks, i);
  }

  lemma BlockOnPath(f: MirFunction, initialized: Entries, p: seq<BlockId>) returns (i: nat)
    requires Accepted(f, initialized) && IsPath(BlockMap(f.blocks), p) && p[|p| - 1] in BlockMap(f.blocks)
    ensures i < |f.blocks| && f.blocks[i].id == p[|p| - 1] && f.blocks[i].id in initialized
    ensures BlockMap(f.blocks)[f.blocks[i].id] == f.blocks[i]
  {
    hide BlockMap, Accepted;
    BlockMapKeys(f.blocks);
    i :| 0 <= i < |f.blocks| && f.blocks[i].id == p[|p| - 1];
    assert PathTo(BlockMap(f.blocks), p, p[|p| - 1]);
    MappedBlock(f, initialized, i);
  }

  lemma ArgumentIffReady(f: MirFunction, initialized: Entries, i: nat, op: Operand)
    requires Accepted(f, initialized) && i < |f.blocks| && f.blocks[i].id in initialized
    ensures var block := f.blocks[i];
      OperandOk(op, f.locals, InBlock(block.instructions, initialized[block.id] + ParameterSet(block))) <==>
        ReadyOnPaths(f, BlockMap(f.blocks), block.id, |block.instructions|, op)
  {
    hide BlockMap, BlockOk, Structured, MeetOverAllPaths, InBlock, OperandOk, ReadyOnPaths;
    var block := f.blocks[i];
    MappedBlock(f, initialized, i);
    assert block.instructions[..|block.instructions|] == block.instructions;
    CheckedIffReady(f, initialized, block.id, |block.instructions|, op);
  }

  lemma ArgumentsAreOk(f: MirFunction, initialized: Entries, i: nat)
    requires Accepted(f, initialized) && i < |f.blocks| && f.blocks[i].id in initialized && ConsumesReady(f)
    ensures ArgumentsOk(f, initialized, f.blocks[i])
  {
    hide BlockMap, Accepted, InBlock, OperandOk, OperandsAt, ReadyAt;
    var blocks, block := BlockMap(f.blocks), f.blocks[i];
    MappedBlock(f, initialized, i);
    forall j | 0 <= j < |ArgumentOperands(block.terminator)|
      ensures OperandOk(ArgumentOperands(block.terminator)[j], f.locals, InBlock(block.instructions, initialized[block.id] + ParameterSet(block)))
    {
      var op := ArgumentOperands(block.terminator)[j];
      forall p | PathTo(blocks, p, block.id) && Reaches(blocks, p, |block.instructions|)
        ensures ReadyAt(f, blocks, p, |block.instructions|, op)
      {
        assert ConsumesAt(blocks, p, |block.instructions|, op);
      }
      ArgumentIffReady(f, initialized, i, op);
    }
  }

  lemma ArgumentIsReady(f: MirFunction, initialized: Entries, p: seq<BlockId>, k: nat, op: Operand)
    requires Accepted(f, initialized) && ArgumentsOkWhereReached(f, initialized) && ConsumesAt(BlockMap(f.blocks), p, k, op)
    ensures ReadyAt(f, BlockMap(f.blocks), p, k, op)
  {
    hide BlockMap, Accepted, InBlock, OperandOk, OperandsAt, ReadyAt, SafeOnEveryPath;
    var blocks := BlockMap(f.blocks);
    var i := BlockOnPath(f, initialized, p);
    var block := f.blocks[i];
    if op in OperandsAt(block, k) {
      AcceptedIsSafe(f, initialized);
      CheckedIsReady(f, p, k, op);
    } else {
      assert ArgumentsOk(f, initialized, block);
      ArgumentIffReady(f, initialized, i, op);
      assert PathTo(blocks, p, block.id);
    }
  }

  lemma CheckedIsReady(f: MirFunction, p: seq<BlockId>, k: nat, op: Operand)
    requires SafeOnEveryPath(f) && ReadsAt(BlockMap(f.blocks), p, k, op)
    ensures ReadyAt(f, BlockMap(f.blocks), p, k, op)
  {}

  /** An accepted function consumes only ready operands, block arguments included, exactly if the
      arguments of each reachable block pass the check the validator makes of other operands. */
  lemma ArgumentsReadyIff(f: MirFunction, initialized: Entries)
    requires Accepted(f, initialized)
    ensures ConsumesReady(f) <==> ArgumentsOkWhereReached(f, initialized)
  {
    hide BlockMap, Accepted, ArgumentsOk, ReadyAt, ConsumedAt;
    if ConsumesReady(f) {
      forall i | 0 <= i < |f.blocks| && f.blocks[i].id in initialized ensures ArgumentsOk(f, initialized, f.blocks[i]) {
        ArgumentsAreOk(f, initialized, i);
      }
    }
    if ArgumentsOkWhereReached(f, initialized) {
      forall p, k: nat, op | ConsumesAt(BlockMap(f.blocks), p, k, op) ensures ReadyAt(f, BlockMap(f.blocks), p, k, op) {
        ArgumentIsReady(f, initialized, p, k, op);
      }
      assert ConsumesReady(f);
    }
  }

  // ----- moves inside a block -----

  /** At position `k` of the last block, `op` is declared, was defined on the path, and has been
      neither dropped nor moved out of since. */
  ghost predicate UnmovedAt(f: MirFunction, blocks: Blocks, p: seq<BlockId>, k: nat, op: Operand)
    requires Reaches(blocks, p, k)
  {
    var t := TraceTo(f, blocks, p) + BlockTrace(blocks[p[|p| - 1]], k);
    op.Local? ==> op.id in f.locals && Ready(t, |t|, op.id)
  }

  ghost predicate NeverConsumesMoved(f: MirFunction) {
    var blocks := BlockMap(f.blocks);
    forall p, k: nat, op :: ConsumesAt(blocks, p, k, op) ==> UnmovedAt(f, blocks, p, k, op)
  }

  ghost predicate Redefined(insts: seq<Instruction>, j: nat, k: nat, x: LocalId)
    requires k <= |insts|
  {
    exists i :: j <= i < k && Destination(insts[i]) == Some(x)
  }

  /** Within the block, a local killed at one instruction is consumed later only if redefined between. */
  ghost predicate MovesAreFinal(block: BasicBlock) {
    forall j, k, x ::
      0 <= j < k <= |block.instructions| && x in Killed(block.instructions[j]) && Local(x) in ConsumedAt(block, k) ==>
        Redefined(block.instructions, j, k, x)
  }

  lemma {:induction false} TraceIndex(insts: seq<Instruction>)
    ensures |InstructionTrace(insts)| == |insts|
    ensures forall i :: 0 <= i < |insts| ==> InstructionTrace(insts)[i] == Executed(insts[i])
  {
    if insts != [] { TraceIndex(insts[..|insts| - 1]); }
  }

  lemma BlockTraceIndex(before: seq<Event>, block: BasicBlock, k: nat)
    requires k <= |block.instructions|
    ensures var t := before + BlockTrace(block, k);
      && |t| == |before| + 1 + k
      && t[|before|] == Entered(block.parameters)
      && forall i :: 0 <= i < k ==> t[|before| + 1 + i] == Executed(block.instructions[i])
  {
    TraceIndex(block.instructions[..k]);
  }

  lemma UnmovedMeansRedefined(before: seq<Event>, block: BasicBlock, j: nat, k: nat, x: LocalId)
    requires j < k <= |block.instructions| && x in Killed(block.instructions[j])
    requires var t := before + BlockTrace(block, k); Ready(t, |t|, x)
    ensures Redefined(block.instructions, j, k, x)
  {
    var t := before + BlockTrace(block, k);
    BlockTraceIndex(before, block, k);
    var i :| 0 <= i < |t| && Defines(t[i], x) && forall n :: i < n < |t| ==> !Drops(t[n], x) && (n < |t| ==> !Kills(t[n], x));
    assert Kills(t[|before| + 1 + j], x);
    assert i >= |before| + 1 + j;
    var i' := i - |before| - 1;
    assert t[|before| + 1 + i'] == Executed(block.instructions[i']);
  }

  /** The position of the last kill of `x` in a trace, if there is one from `from` on. */
  lemma {:induction false} LastKill(t: seq<Event>, from: nat, x: LocalId) returns (j: int)
    requires from <= |t|
    ensures j == -1 || (from <= j < |t| && Kills(t[j], x))
    ensures forall n :: from <= n < |t| && n > j ==> !Kills(t[n], x)
    decreases |t| - from
  {
    if from == |t| { return -1; }
    j := LastKill(t, from + 1, x);
    if j == -1 && Kills(t[from], x) { j := from; }
  }

  /** A definition of `x` at or after the last kill of it, and after the last drop. */
  lemma ReadyFrom(t: seq<Event>, n: nat, x: LocalId)
    requires n < |t| && Defines(t[n], x)
    requires forall m :: n < m < |t| ==> !Drops(t[m], x) && !Kills(t[m], x)
    ensures Ready(t, |t|, x)
  {}

  lemma RedefinedMeansUnmoved(before: seq<Event>, block: BasicBlock, k: nat, x: LocalId)
    requires k <= |block.instructions| && MovesAreFinal(block) && Local(x) in ConsumedAt(block, k)
    requires Ready(before + BlockTrace(block, k), |before|, x)
    ensures var t := before + BlockTrace(block, k); Ready(t, |t|, x)
  {
    hide ConsumedAt, Killed, BlockTrace, Drops;
    var t := before + BlockTrace(block, k);
    BlockTraceIndex(before, block, k);
    var i :| 0 <= i < |t| && Defines(t[i], x) && forall n :: i < n < |t| ==> !Drops(t[n], x) && (n < |before| ==> !Kills(t[n], x));
    var j := LastKill(t, i + 1, x);
    if j == -1 {
      ReadyFrom(t, i, x);
    } else {
      assert j > |before|;
      var j' := j - |before| - 1;
      assert t[|before| + 1 + j'] == Executed(block.instructions[j']);
      assert Redefined(block.instructions, j', k, x);
      var i' :| j' <= i' < k && Destination(block.instructions[i']) == Some(x);
      assert t[|before| + 1 + i'] == Executed(block.instructions[i']);
      ReadyFrom(t, |before| + 1 + i', x);
    }
  }

  ghost predicate MovesAreFinalWhereReached(f: MirFunction) {
    var blocks := BlockMap(f.blocks);
    forall b :: b in blocks && Reachable(blocks, b) ==> MovesAreFinal(blocks[b])
  }

  lemma UnmovedIsReady(f: MirFunction, blocks: Blocks, p: seq<BlockId>, k: nat, op: Operand)
    requires Reaches(blocks, p, k) && UnmovedAt(f, blocks, p, k, op)
    ensures ReadyAt(f, blocks, p, k, op)
  {
    hide Defines, Drops, Kills;
    if op.Local? {
      var x, before := op.id, TraceTo(f, blocks, p);
      var t := before + BlockTrace(blocks[p[|p| - 1]], k);
      var i :| 0 <= i < |t| && Defines(t[i], x) && forall j :: i < j < |t| ==> !Drops(t[j], x) && (j < |t| ==> !Kills(t[j], x));
      assert Ready(t, |before|, x);
    }
  }

  /** An accepted function never consumes an undeclared, uninitialised, dropped or moved-out local
      exactly if the block arguments pass the operand check and, inside each reachable block, no
      local is consumed after a move out of it without being redefined. */
  lemma MoveSafeIff(f: MirFunction, initialized: Entries)
    requires Accepted(f, initialized)
    ensures NeverConsumesMoved(f) <==> ArgumentsOkWhereReached(f, initialized) && MovesAreFinalWhereReached(f)
  {
    hide Accepted, BlockMap, MovesAreFinal, ArgumentsOkWhereReached, ConsumesReady, ConsumedAt, UnmovedAt, ReadyAt, Reachable;
    var blocks := BlockMap(f.blocks);
    ArgumentsReadyIff(f, initialized);
    if NeverConsumesMoved(f) {
      MoveSafeIsReady(f);
      forall b | b in blocks && Reachable(blocks, b) ensures MovesAreFinal(blocks[b]) {
        FinalWhereReached(f, b);
      }
      assert MovesAreFinalWhereReached(f);
    }
    if ArgumentsOkWhereReached(f, initialized) && MovesAreFinalWhereReached(f) {
      forall p, k: nat, op | ConsumesAt(blocks, p, k, op) ensures UnmovedAt(f, blocks, p, k, op) {
        ConsumedIsUnmoved(f, p, k, op);
      }
      assert NeverConsumesMoved(f);
    }
  }

  lemma MoveSafeIsReady(f: MirFunction)
    requires NeverConsumesMoved(f)
    ensures ConsumesReady(f)
  {
    hide BlockMap, ConsumedAt, UnmovedAt, ReadyAt;
    var blocks := BlockMap(f.blocks);
    forall p, k: nat, op | ConsumesAt(blocks, p, k, op) ensures ReadyAt(f, blocks, p, k, op) {
      UnmovedIsReady(f, blocks, p, k, op);
    }
  }

  lemma ConsumedIsUnmoved(f: MirFunction, p: seq<BlockId>, k: nat, op: Operand)
    requires ConsumesReady(f) && MovesAreFinalWhereReached(f) && ConsumesAt(BlockMap(f.blocks), p, k, op)
    ensures UnmovedAt(f, BlockMap(f.blocks), p, k, op)
  {
    hide Ready, ConsumedAt, BlockMap, MovesAreFinal;
    var blocks := BlockMap(f.blocks);
    var b := p[|p| - 1];
    assert PathTo(blocks, p, b);
    assert ReadyAt(f, blocks, p, k, op);
    if op.Local? {
      assert op == Local(op.id);
      RedefinedMeansUnmoved(TraceTo(f, blocks, p), blocks[b], k, op.id);
    }
  }

  lemma FinalWhereReached(f: MirFunction, b: BlockId)
    requires NeverConsumesMoved(f) && b in BlockMap(f.blocks) && Reachable(BlockMap(f.blocks), b)
    ensures MovesAreFinal(BlockMap(f.blocks)[b])
  {
    hide Ready, ConsumedAt, Killed, Redefined, BlockMap;
    var blocks := BlockMap(f.blocks);
    var block := blocks[b];
    var p :| PathTo(blocks, p, b);
    forall j, k, x | 0 <= j < k <= |block.instructions| && x in Killed(block.instructions[j]) && Local(x) in ConsumedAt(block, k)
      ensures Redefined(block.instructions, j, k, x)
    {
      assert ConsumesAt(blocks, p, k, Local(x));
      assert UnmovedAt(f, blocks, p, k, Local(x));
      UnmovedMeansRedefined(TraceTo(f, blocks, p), block, j, k, x);
    }
  }

  // ----- accepted functions that fail -----

  /** Reads its parameter twice, moving out of it each time. */
  function MovesTwice(): MirFunction {
    MirFunction(1, [0, 1, 2], [BasicBlock(0, [], [Assign(1, Use(Local(0))), Assign(2, Use(Local(0)))], Return(None))])
  }

  /** The validator accepts a function that reads a local it has moved out of. */
  lemma AcceptsReadAfterMove()
    ensures exists initialized :: Accepted(MovesTwice(), initialized)
    ensures !NeverConsumesMoved(MovesTwice())
  {
    hide Accepted, NeverConsumesMoved, MovesAreFinalWhereReached, ArgumentsOkWhereReached, MovesTwice;
    TwiceAccepted();
    MoveSafeIff(MovesTwice(), map[0 := {0}]);
    TwiceMoves();
  }

  lemma TwiceBlocks()
    ensures BlockMap(MovesTwice().blocks) == map[0 := MovesTwice().blocks[0]]
  {}

  lemma TwiceAccepted()
    ensures Accepted(MovesTwice(), map[0 := {0}])
  {
    hide BlockOk, Structured, MeetOverAllPaths, BlockMap, CheckedEntry, EntrySet;
    var m := map[0 := {0}];
    TwiceBlocks();
    OnlyEntryPath(BlockMap(MovesTwice().blocks), m);
    TwiceStructured();
    TwiceChecked(m);
  }

  lemma TwiceMoves()
    ensures !MovesAreFinalWhereReached(MovesTwice())
  {
    hide BlockMap;
    TwiceBlocks();
    var blocks := BlockMap(MovesTwice().blocks);
    assert PathTo(blocks, [0], 0);
    assert Reachable(blocks, 0);
    assert !MovesAreFinal(blocks[0]) by { TwiceNotFinal(); }
  }

  lemma TwiceNotFinal()
    ensures !MovesAreFinal(MovesTwice().blocks[0])
  {
    var block := MovesTwice().blocks[0];
    assert 0 in Killed(block.instructions[0]) && Local(0) in ConsumedAt(block, 1);
    assert !Redefined(block.instructions, 0, 1, 0);
  }

  lemma TwiceDefinitions()
    ensures ParameterIds(1) + Definitions(MovesTwice().blocks) == [0, 1, 2]
  {
    var blocks := MovesTwice().blocks;
    var insts := blocks[0].instructions;
    assert blocks[..0] == [];
    assert insts[..1] == [insts[0]] && insts[..1][..0] == [];
    assert Destinations(insts[..1]) == [1];
    assert Destinations(insts) == [1, 2];
    assert Definitions(blocks) == [1, 2];
    assert ParameterIds(1) == [0];
  }

  lemma TwiceStructured()
    ensures Structured(MovesTwice())
  {
    hide ParameterIds, Definitions;
    TwiceDefinitions();
    assert MovesTwice().blocks[..0] == [];
  }

  lemma TwiceChecked(m: Entries)
    requires m == map[0 := {0}]
    ensures BlockOk(MovesTwice().blocks[0], MovesTwice().locals, CheckedEntry(MovesTwice(), m, MovesTwice().blocks[0]))
  {}

  lemma OnlyEntryPath(blocks: Blocks, m: Entries)
    requires blocks == map[0 := MovesTwice().blocks[0]] && m == map[0 := {0}]
    ensures MeetOverAllPaths(blocks, EntrySet(MovesTwice()), m)
  {
    var entry := EntrySet(MovesTwice());
    assert ParameterIds(1) == [0];
    assert entry == {0};
    forall p | IsPath(blocks, p) ensures p == [0] {}
    assert PathTo(blocks, [0], 0);
    forall b, x | b in m ensures x in m[b] <==> Always(blocks, entry, b, x) {
      assert InitializedOn(blocks, entry, [0], x) <==> x == 0;
    }
  }

  /** Passes a moved local and a local that is never assigned to its second block, which returns
      the latter. */
  function PassesUnready(): MirFunction {
    MirFunction(1, [0, 1, 2, 3, 9],
      [ BasicBlock(0, [], [Assign(1, Use(Local(0)))], Jump(1, [Local(0), Local(9)])),
        BasicBlock(1, [2, 3], [], Return(Some(Local(3)))) ])
  }

  const PASSES_ENTRIES: Entries := map[0 := {0}, 1 := {1}]

  /** The validator accepts a function whose block arguments are a moved local and a local that no
      path defines. */
  lemma AcceptsUnreadyArguments()
    ensures Accepted(PassesUnready(), PASSES_ENTRIES)
    ensures var f := PassesUnready(); var blocks := BlockMap(f.blocks);
      && ConsumesAt(blocks, [0], 1, Local(0)) && !UnmovedAt(f, blocks, [0], 1, Local(0))
      && ConsumesAt(blocks, [0], 1, Local(9)) && !ReadyAt(f, blocks, [0], 1, Local(9))
  {
    hide Accepted, BlockMap, UnmovedAt, ReadyAt;
    PassesBlocks();
    PassesAccepted();
    PassesTrace();
  }

  lemma PassesBlocks()
    ensures var f := PassesUnready(); BlockMap(f.blocks) == map[0 := f.blocks[0], 1 := f.blocks[1]]
  {
    var blocks := PassesUnready().blocks;
    assert blocks[..1] == [blocks[0]] && blocks[..1][..0] == [];
  }

  lemma PassesTrace()
    ensures var f := PassesUnready(); var blocks := map[0 := f.blocks[0], 1 := f.blocks[1]];
      && Reaches(blocks, [0], 1)
      && !UnmovedAt(f, blocks, [0], 1, Local(0)) && !ReadyAt(f, blocks, [0], 1, Local(9))
  {
    var f := PassesUnready();
    var block := f.blocks[0];
    var before := [Started(1)];
    BlockTraceIndex(before, block, 1);
    var t := before + BlockTrace(block, 1);
    assert t[1] == Entered([]) && t[2] == Executed(block.instructions[0]);
    assert ParameterIds(1) == [0];
    assert Kills(t[2], 0);
    assert forall i :: 0 <= i < |t| ==> !Defines(t[i], 9);
  }

  lemma PassesAccepted()
    ensures Accepted(PassesUnready(), PASSES_ENTRIES)
  {
    hide BlockOk, Structured, MeetOverAllPaths, BlockMap, CheckedEntry, EntrySet;
    PassesBlocks();
    PassesMeet(BlockMap(PassesUnready().blocks));
    PassesStructured();
    PassesChecked();
  }

  lemma PassesMeet(blocks: Blocks)
    requires var f := PassesUnready(); blocks == map[0 := f.blocks[0], 1 := f.blocks[1]]
    ensures MeetOverAllPaths(blocks, EntrySet(PassesUnready()), PASSES_ENTRIES)
  {
    var entry, m := EntrySet(PassesUnready()), PASSES_ENTRIES;
    assert ParameterIds(1) == [0];
    assert entry == {0};
    PassesPaths(blocks);
    assert PathTo(blocks, [0], 0) && PathTo(blocks, [0, 1], 1);
    forall b, x | b in m ensures x in m[b] <==> Always(blocks, entry, b, x) {
      assert InitializedOn(blocks, entry, [0], x) <==> x == 0;
      assert InitializedOn(blocks, entry, [0, 1], x) <==> x == 1;
    }
  }

  lemma PassesPaths(blocks: Blocks)
    requires var f := PassesUnready(); blocks == map[0 := f.blocks[0], 1 := f.blocks[1]]
    ensures IsPath(blocks, [0]) && IsPath(blocks, [0, 1]) && Along(blocks, {0}, [0, 1]) == {1}
    ensures forall p :: IsPath(blocks, p) ==> p == [0] || p == [0, 1]
  {
    assert [0, 1][..1] == [0];
    var insts := blocks[0].instructions;
    assert insts[..0] == [];
    assert ParameterSet(blocks[0]) == {};
    assert {0} + ParameterSet(blocks[0]) == {0};
    assert AfterInstructions(insts, {0}) == {1};
    assert AfterBlock(blocks[0], {0}) == {1};
    forall p | IsPath(blocks, p) ensures p == [0] || p == [0, 1] {
      OnePathLonger(blocks, p);
    }
  }

  lemma {:induction false} OnePathLonger(blocks: Blocks, p: seq<BlockId>)
    requires var f := PassesUnready(); blocks == map[0 := f.blocks[0], 1 := f.blocks[1]]
    requires IsPath(blocks, p)
    ensures p == [0] || p == [0, 1]
  {
    if |p| > 1 {
      OnePathLonger(blocks, p[..|p| - 1]);
      assert p == p[..|p| - 1] + [p[|p| - 1]];
    }
  }

  lemma PassesStructured()
    ensures Structured(PassesUnready())
  {
    hide ParameterIds, Definitions, BlockMap;
    PassesBlocks();
    PassesDefinitions();
  }

  lemma PassesDefinitions()
    ensures ParameterIds(1) + Definitions(PassesUnready().blocks) == [0, 1, 2, 3]
  {
    var blocks := PassesUnready().blocks;
    assert blocks[..1] == [blocks[0]] && blocks[..1][..0] == [];
    assert blocks[0].instructions[..0] == [];
    assert BlockDefinitions(blocks[0]) == [1];
    assert Definitions(blocks[..1]) == [1];
    assert BlockDefinitions(blocks[1]) == [2, 3];
    assert ParameterIds(1) == [0];
  }

  lemma PassesChecked()
    ensures var f := PassesUnready(); forall i :: 0 <= i < |f.blocks| ==> BlockOk(f.blocks[i], f.locals, CheckedEntry(f, PASSES_ENTRIES, f.blocks[i]))
  {
    var f := PassesUnready();
    assert f.blocks[0].instructions[..0] == [];
    assert 3 in ParameterSet(f.blocks[1]) by { assert f.blocks[1].parameters[1] == 3; }
  }
}
