/** The mid-level intermediate representation that the validator reads. */
module Mir {
  import opened Machine

  type LocalId = nat
  type BlockId = nat

  const ENTRY_BLOCK: BlockId := 0

  datatype Operand = Constant | ConstRef(index: nat) | Local(id: LocalId)

  datatype ArrayLiteralElement = Single(operand: Operand) | Spread(operand: Operand)

  datatype RValue =
    | Use(operand: Operand)
    | UnaryOp(operand: Operand)
    | BinaryOp(left: Operand, right: Operand)
    | Cast(operand: Operand)
    | Copy(operand: Operand)
    | NewStruct(operands: seq<Operand>)
    | NewArray(operands: seq<Operand>)
    | NewArrayDynamic(elements: seq<ArrayLiteralElement>)
    | NewArrayZeroed(size: nat)
    | NewArrayZeroedDynamic(length: Operand)
    | NewTuple(operands: seq<Operand>)
    | MemberAccess(operand: Operand, member: string)
    | ArrayIndex(left: Operand, right: Operand)
    | Choice(variant: string, payload: Option<Operand>)
    | ChoiceVariantIs(operand: Operand)
    | ImportedChoiceVariantIs(operand: Operand)
    | Instanceof(operand: Operand)
    | LoadGlobal(global: string)
    | Len(operand: Operand)
    | CreateFuture(operands: seq<Operand>)
    | CreateIndirectFuture(func: Operand, operands: seq<Operand>)

  datatype Instruction =
    | Assign(dest: LocalId, rvalue: RValue)
    | Drop(dropped: LocalId)
    | StoreGlobal(global: string, val: Operand)
    | StoreIndex(arr: Operand, idx: Operand, val: Operand)
    | StoreField(obj: Operand, field: string, val: Operand)
    | Call(args: seq<Operand>, dest: LocalId)
    | IndirectCall(func: Operand, args: seq<Operand>, dest: LocalId)
    | ConstraintCall(obj: Operand, args: seq<Operand>, dest: LocalId)
    | Await(future: Operand, dest: LocalId)
    | AwaitAll(futures: seq<Operand>, dest: LocalId)
    | AwaitRace(futures: seq<Operand>, dest: LocalId)

  datatype Terminator =
    | Return(value: Option<Operand>)
    | Jump(target: BlockId, args: seq<Operand>)
    | Branch(cond: Operand, trueBlock: BlockId, trueArgs: seq<Operand>, falseBlock: BlockId, falseArgs: seq<Operand>)
    | TailCall(args: seq<Operand>)
    | Panic(message: string)

  datatype BasicBlock = BasicBlock(id: BlockId, parameters: seq<LocalId>, instructions: seq<Instruction>, terminator: Terminator)

  /** Parameters are the locals `0 .. parameterCount`. */
  datatype MirFunction = MirFunction(parameterCount: nat, locals: seq<LocalId>, blocks: seq<BasicBlock>)

  function ElementOperands(elements: seq<ArrayLiteralElement>): seq<Operand> {
    seq(|elements|, k requires 0 <= k < |elements| => elements[k].operand)
  }

  /** The operands an rvalue reads, in order. */
  function RValueOperands(rvalue: RValue): seq<Operand> {
    match rvalue
    case Use(op) => [op]
    case UnaryOp(op) => [op]
    case BinaryOp(left, right) => [left, right]
    case Cast(op) => [op]
    case Copy(op) => [op]
    case NewStruct(ops) => ops
    case NewArray(ops) => ops
    case NewArrayDynamic(elements) => ElementOperands(elements)
    case NewArrayZeroed(_) => []
    case NewArrayZeroedDynamic(length) => [length]
    case NewTuple(ops) => ops
    case MemberAccess(op, _) => [op]
    case ArrayIndex(left, right) => [left, right]
    case Choice(_, payload) => if payload.Some? then [payload.value] else []
    case ChoiceVariantIs(op) => [op]
    case ImportedChoiceVariantIs(op) => [op]
    case Instanceof(op) => [op]
    case LoadGlobal(_) => []
    case Len(op) => [op]
    case CreateFuture(ops) => ops
    case CreateIndirectFuture(func, ops) => [func] + ops
  }

  /** The operands an instruction reads, in the order the validator checks them. */
  function InstructionOperands(inst: Instruction): seq<Operand> {
    match inst
    case Assign(_, rvalue) => RValueOperands(rvalue)
    case Drop(_) => []
    case StoreGlobal(_, val) => [val]
    case StoreIndex(arr, idx, val) => [arr, idx, val]
    case StoreField(obj, _, val) => [obj, val]
    case Call(args, _) => args
    case IndirectCall(func, args, _) => [func] + args
    case ConstraintCall(obj, args, _) => [obj] + args
    case Await(future, _) => [future]
    case AwaitAll(futures, _) => futures
    case AwaitRace(futures, _) => futures
  }

  /** The terminator operands the validator checks: block arguments are not among them. */
  function TerminatorOperands(t: Terminator): seq<Operand> {
    match t
    case Return(value) => if value.Some? then [value.value] else []
    case Jump(_, _) => []
    case Branch(cond, _, _, _, _) => [cond]
    case TailCall(args) => args
    case Panic(_) => []
  }

  /** The operands passed to the parameters of the successor blocks. */
  function ArgumentOperands(t: Terminator): seq<Operand> {
    match t
    case Jump(_, args) => args
    case Branch(_, _, trueArgs, _, falseArgs) => trueArgs + falseArgs
    case _ => []
  }

  function Destination(inst: Instruction): Option<LocalId> {
    match inst
    case Assign(dest, _) => Some(dest)
    case Call(_, dest) => Some(dest)
    case IndirectCall(_, _, dest) => Some(dest)
    case ConstraintCall(_, _, dest) => Some(dest)
    case Await(_, dest) => Some(dest)
    case AwaitAll(_, dest) => Some(dest)
    case AwaitRace(_, dest) => Some(dest)
    case _ => None
  }

  /** Successor blocks, each with the arguments passed to it. */
  function SuccessorBlocks(t: Terminator): seq<(BlockId, seq<Operand>)> {
    match t
    case Jump(target, args) => [(target, args)]
    case Branch(_, trueBlock, trueArgs, falseBlock, falseArgs) => [(trueBlock, trueArgs), (falseBlock, falseArgs)]
    case _ => []
  }

  predicate IsSuccessor(t: Terminator, b: BlockId) {
    match t
    case Jump(target, _) => b == target
    case Branch(_, trueBlock, _, falseBlock, _) => b == trueBlock || b == falseBlock
    case _ => false
  }
}
