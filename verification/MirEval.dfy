/** Evaluating MIR: rvalues, instructions and terminators over an environment of locals, each reading
    its own parts, and what the operand lists have to do with it. Values are terms: what was computed,
    from what. */
module MirEval {
  import opened Machine
  import opened Mir
  import opened InitFlow

  datatype Value = Given(param: nat) | Junk | Fixed(op: Operand) | Built(tag: string, parts: seq<Value>)

  type Env = map<LocalId, Value>

  // ----- operands and rvalues -----

  /** None if the operand is a local that is not set. */
  function EvalOperand(op: Operand, env: Env): Option<Value> {
    match op
    case Local(x) => if x in env then Some(env[x]) else None
    case _ => Some(Fixed(op))
  }

  function EvalEach(ops: seq<Operand>, env: Env): seq<Option<Value>> {
    seq(|ops|, k requires 0 <= k < |ops| => EvalOperand(ops[k], env))
  }

  function EvalElement(e: ArrayLiteralElement, env: Env): Option<Value> {
    match e
    case Single(op) => EvalOperand(op, env)
    case Spread(op) => EvalOperand(op, env)
  }

  predicate AllSet(vs: seq<Option<Value>>) {
    forall k :: 0 <= k < |vs| ==> vs[k].Some?
  }

  /** The term built from the parts, if all of them are set. */
  function Combine(tag: string, vs: seq<Option<Value>>): Option<Value> {
    if AllSet(vs) then Some(Built(tag, seq(|vs|, k requires 0 <= k < |vs| => vs[k].value))) else None
  }

  function EvalRValue(rvalue: RValue, env: Env): Option<Value> {
    match rvalue
    case Use(op) => EvalOperand(op, env)
    case UnaryOp(op) => Combine("unary", [EvalOperand(op, env)])
    case BinaryOp(left, right) => Combine("binary", [EvalOperand(left, env), EvalOperand(right, env)])
    case Cast(op) => Combine("cast", [EvalOperand(op, env)])
    case Copy(op) => Combine("copy", [EvalOperand(op, env)])
    case NewStruct(ops) => Combine("struct", EvalEach(ops, env))
    case NewArray(ops) => Combine("array", EvalEach(ops, env))
    case NewArrayDynamic(elements) =>
      Combine("array", seq(|elements|, k requires 0 <= k < |elements| => EvalElement(elements[k], env)))
    case NewArrayZeroed(_) => Combine("zeroed", [])
    case NewArrayZeroedDynamic(length) => Combine("zeroed", [EvalOperand(length, env)])
    case NewTuple(ops) => Combine("tuple", EvalEach(ops, env))
    case MemberAccess(op, _) => Combine("member", [EvalOperand(op, env)])
    case ArrayIndex(left, right) => Combine("index", [EvalOperand(left, env), EvalOperand(right, env)])
    case Choice(_, payload) => Combine("choice", if payload.Some? then [EvalOperand(payload.value, env)] else [])
    case ChoiceVariantIs(op) => Combine("variant", [EvalOperand(op, env)])
    case ImportedChoiceVariantIs(op) => Combine("variant", [EvalOperand(op, env)])
    case Instanceof(op) => Combine("instance", [EvalOperand(op, env)])
    case LoadGlobal(_) => Combine("global", [])
    case Len(op) => Combine("len", [EvalOperand(op, env)])
    case CreateFuture(ops) => Combine("future", EvalEach(ops, env))
    case CreateIndirectFuture(func, ops) => Combine("future", [EvalOperand(func, env)] + EvalEach(ops, env))
  }

  /** Every local the operands name is set. */
  ghost predicate Set(ops: seq<Operand>, env: Env) {
    LocalsOf(ops) <= env.Keys
  }

  lemma SetIff(ops: seq<Operand>, env: Env)
    ensures AllSet(EvalEach(ops, env)) <==> Set(ops, env)
  {
    var vs := EvalEach(ops, env);
    if Set(ops, env) {
      forall k | 0 <= k < |vs| ensures vs[k].Some? {
        if ops[k].Local? { assert ops[k].id in LocalsOf(ops); }
      }
    } else {
      var x :| x in LocalsOf(ops) && x !in env;
      var k :| 0 <= k < |ops| && ops[k].Local? && ops[k].id == x;
      assert vs[k].None?;
    }
  }

  function TagOf(rvalue: RValue): string {
    match rvalue
    case Use(_) => "use"
    case UnaryOp(_) => "unary"
    case BinaryOp(_, _) => "binary"
    case Cast(_) => "cast"
    case Copy(_) => "copy"
    case NewStruct(_) => "struct"
    case NewArray(_) => "array"
    case NewArrayDynamic(_) => "array"
    case NewArrayZeroed(_) => "zeroed"
    case NewArrayZeroedDynamic(_) => "zeroed"
    case NewTuple(_) => "tuple"
    case MemberAccess(_, _) => "member"
    case ArrayIndex(_, _) => "index"
    case Choice(_, _) => "choice"
    case ChoiceVariantIs(_) => "variant"
    case ImportedChoiceVariantIs(_) => "variant"
    case Instanceof(_) => "instance"
    case LoadGlobal(_) => "global"
    case Len(_) => "len"
    case CreateFuture(_) => "future"
    case CreateIndirectFuture(_, _) => "future"
  }

  lemma EachOne(a: Operand, env: Env)
    ensures EvalEach([a], env) == [EvalOperand(a, env)]
  {}

  lemma EachTwo(a: Operand, b: Operand, env: Env)
    ensures EvalEach([a, b], env) == [EvalOperand(a, env), EvalOperand(b, env)]
  {}

  lemma EachAnd(a: Operand, ops: seq<Operand>, env: Env)
    ensures EvalEach([a] + ops, env) == [EvalOperand(a, env)] + EvalEach(ops, env)
  {}

  lemma EachElement(elements: seq<ArrayLiteralElement>, env: Env)
    ensures EvalEach(ElementOperands(elements), env) == seq(|elements|, k requires 0 <= k < |elements| => EvalElement(elements[k], env))
  {}

  /** An rvalue is evaluated from its operand list and nothing else. */
  lemma RValueFromOperands(rvalue: RValue, env: Env)
    ensures rvalue.Use? ==> RValueOperands(rvalue) == [rvalue.operand]
    ensures !rvalue.Use? ==> EvalRValue(rvalue, env) == Combine(TagOf(rvalue), EvalEach(RValueOperands(rvalue), env))
  {
    assert EvalEach([], env) == [];
    hide Combine, EvalOperand, EvalEach, EvalElement, ElementOperands;
    match rvalue
    case BinaryOp(left, right) => EachTwo(left, right, env);
    case ArrayIndex(left, right) => EachTwo(left, right, env);
    case CreateIndirectFuture(func, ops) => EachAnd(func, ops, env);
    case NewArrayDynamic(elements) => EachElement(elements, env);
    case UnaryOp(op) => EachOne(op, env);
    case Cast(op) => EachOne(op, env);
    case Copy(op) => EachOne(op, env);
    case NewArrayZeroedDynamic(op) => EachOne(op, env);
    case MemberAccess(op, _) => EachOne(op, env);
    case Choice(_, payload) => if payload.Some? { EachOne(payload.value, env); }
    case ChoiceVariantIs(op) => EachOne(op, env);
    case ImportedChoiceVariantIs(op) => EachOne(op, env);
    case Instanceof(op) => EachOne(op, env);
    case Len(op) => EachOne(op, env);
    case _ =>
  }

  lemma RValueSetIff(rvalue: RValue, env: Env)
    ensures EvalRValue(rvalue, env).Some? <==> Set(RValueOperands(rvalue), env)
  {
    hide EvalRValue, RValueOperands, TagOf;
    RValueFromOperands(rvalue, env);
    SetIff(RValueOperands(rvalue), env);
    if rvalue.Use? {
      OneUnset(rvalue.operand, env);
      UseIsOperand(rvalue, env);
    } else {
      CombineSet(TagOf(rvalue), EvalEach(RValueOperands(rvalue), env));
    }
  }

  lemma UseIsOperand(rvalue: RValue, env: Env)
    requires rvalue.Use?
    ensures EvalRValue(rvalue, env) == EvalOperand(rvalue.operand, env)
  {}

  /** The value depends on the locals the operand list names, and on each of them: it is the same
      in environments that agree on them, and another if any one of them is changed. */
  lemma RValueDependsExactly(rvalue: RValue, env: Env, env': Env)
    requires Set(RValueOperands(rvalue), env) && Set(RValueOperands(rvalue), env')
    ensures EvalRValue(rvalue, env) == EvalRValue(rvalue, env') <==> forall x :: x in LocalsOf(RValueOperands(rvalue)) ==> env[x] == env'[x]
  {
    hide EvalRValue, RValueOperands, TagOf;
    var ops := RValueOperands(rvalue);
    RValueFromOperands(rvalue, env);
    RValueFromOperands(rvalue, env');
    SetIff(ops, env);
    SetIff(ops, env');
    var vs, vs' := EvalEach(ops, env), EvalEach(ops, env');
    EachDependsExactly(ops, env, env');
    if rvalue.Use? {
      UseIsOperand(rvalue, env);
      UseIsOperand(rvalue, env');
      EachOne(rvalue.operand, env);
      EachOne(rvalue.operand, env');
      assert vs == vs' <==> vs[0] == vs'[0];
    } else {
      CombineInjective(TagOf(rvalue), vs, vs');
    }
  }

  lemma EachDependsExactly(ops: seq<Operand>, env: Env, env': Env)
    requires Set(ops, env) && Set(ops, env')
    ensures EvalEach(ops, env) == EvalEach(ops, env') <==> forall x :: x in LocalsOf(ops) ==> env[x] == env'[x]
  {
    var vs, vs' := EvalEach(ops, env), EvalEach(ops, env');
    if vs == vs' {
      forall x | x in LocalsOf(ops) ensures env[x] == env'[x] {
        var k :| 0 <= k < |ops| && ops[k].Local? && ops[k].id == x;
        assert vs[k] == vs'[k];
      }
    }
    if forall x :: x in LocalsOf(ops) ==> env[x] == env'[x] {
      forall k | 0 <= k < |ops| ensures vs[k] == vs'[k] {
        if ops[k].Local? { assert ops[k].id in LocalsOf(ops); }
      }
    }
  }

  lemma CombineInjective(tag: string, vs: seq<Option<Value>>, vs': seq<Option<Value>>)
    requires AllSet(vs) && AllSet(vs') && |vs| == |vs'|
    ensures Combine(tag, vs) == Combine(tag, vs') <==> vs == vs'
  {
    if Combine(tag, vs) == Combine(tag, vs') {
      var a, b := Combine(tag, vs).value.parts, Combine(tag, vs').value.parts;
      forall k | 0 <= k < |vs| ensures vs[k] == vs'[k] { assert a[k] == b[k]; }
    }
  }

  // ----- instructions -----

  /** Without the locals among the operands, if moving out of a local clears it. */
  function Cleared(env: Env, ops: seq<Operand>, clears: bool): Env {
    map x | x in env && !(clears && Local(x) in ops) :: env[x]
  }

  /** Executes one instruction; None if it evaluates a local that is not set. Storing, awaiting and
      plain use move their operand; a drop clears its local in any case. */
  function Exec(inst: Instruction, env: Env, clears: bool): Option<Env> {
    match inst
    case Assign(dest, rvalue) =>
      var v := EvalRValue(rvalue, env);
      if v.None? then None
      else Some(Cleared(env, if rvalue.Use? then [rvalue.operand] else [], clears)[dest := v.value])
    case Drop(x) => Some(env - {x})
    case StoreGlobal(_, val) =>
      if EvalOperand(val, env).None? then None else Some(Cleared(env, [val], clears))
    case StoreIndex(arr, idx, val) =>
      if EvalOperand(arr, env).None? || EvalOperand(idx, env).None? || EvalOperand(val, env).None? then None
      else Some(Cleared(env, [val], clears))
    case StoreField(obj, _, val) =>
      if EvalOperand(obj, env).None? || EvalOperand(val, env).None? then None else Some(Cleared(env, [val], clears))
    case Call(args, dest) =>
      var v := Combine("call", EvalEach(args, env));
      if v.None? then None else Some(env[dest := v.value])
    case IndirectCall(func, args, dest) =>
      var v := Combine("call", [EvalOperand(func, env)] + EvalEach(args, env));
      if v.None? then None else Some(env[dest := v.value])
    case ConstraintCall(obj, args, dest) =>
      var v := Combine("call", [EvalOperand(obj, env)] + EvalEach(args, env));
      if v.None? then None else Some(env[dest := v.value])
    case Await(future, dest) =>
      var v := Combine("await", [EvalOperand(future, env)]);
      if v.None? then None else Some(Cleared(env, [future], clears)[dest := v.value])
    case AwaitAll(futures, dest) =>
      var v := Combine("all", EvalEach(futures, env));
      if v.None? then None else Some(Cleared(env, futures, clears)[dest := v.value])
    case AwaitRace(futures, dest) =>
      var v := Combine("race", EvalEach(futures, env));
      if v.None? then None else Some(Cleared(env, futures, clears)[dest := v.value])
  }

  lemma ClearedKeys(env: Env, ops: seq<Operand>, clears: bool)
    ensures Cleared(env, ops, clears).Keys == if clears then env.Keys - LocalsOf(ops) else env.Keys
  {
    forall x ensures Local(x) in ops <==> x in LocalsOf(ops) {
      if Local(x) in ops {
        var k :| 0 <= k < |ops| && ops[k] == Local(x);
        assert ops[k].Local? && ops[k].id == x;
      }
      if x in LocalsOf(ops) {
        var k :| 0 <= k < |ops| && ops[k].Local? && ops[k].id == x;
        assert ops[k] == Local(x);
      }
    }
  }

  lemma LocalsOfOne(op: Operand)
    ensures LocalsOf([op]) == LocalOf(op)
  {
    if op.Local? { assert [op][0] == op; }
  }

  /** An instruction evaluates exactly its operand list, and leaves set what was set, without the locals
      it kills, and with its destination. */
  lemma ExecMeans(inst: Instruction, env: Env, clears: bool)
    ensures Exec(inst, env, clears).Some? <==> Set(InstructionOperands(inst), env)
    ensures Exec(inst, env, clears).Some? ==>
      Exec(inst, env, clears).value.Keys == env.Keys - (if clears then Killed(inst) else Dropped(inst)) + Assigned(inst)
  {
    SetIff(InstructionOperands(inst), env);
    hide Combine, LocalsOf, Set, EvalRValue;
    ExecSet(inst, env, clears);
    if Exec(inst, env, clears).Some? { ExecKeys(inst, env, clears); }
  }

  function Dropped(inst: Instruction): set<LocalId> {
    if inst.Drop? then {inst.dropped} else {}
  }

  lemma CombineSet(tag: string, vs: seq<Option<Value>>)
    ensures Combine(tag, vs).Some? <==> AllSet(vs)
  {}

  lemma ExecSet(inst: Instruction, env: Env, clears: bool)
    ensures Exec(inst, env, clears).Some? <==> AllSet(EvalEach(InstructionOperands(inst), env))
  {
    hide Cleared, EvalOperand, EvalRValue, RValueOperands, AllSet, Combine;
    match inst
    case Assign(_, rvalue) =>
      RValueSetIff(rvalue, env);
      SetIff(RValueOperands(rvalue), env);
    case Drop(_) => NoneUnset(env);
    case StoreGlobal(_, val) => OneUnset(val, env);
    case StoreIndex(arr, idx, val) => ThreeUnset(arr, idx, val, env);
    case StoreField(obj, _, val) => TwoUnset(obj, val, env);
    case Call(args, _) => CombineSet("call", EvalEach(args, env));
    case IndirectCall(func, args, _) =>
      EachAnd(func, args, env);
      CombineSet("call", EvalEach([func] + args, env));
    case ConstraintCall(obj, args, _) =>
      EachAnd(obj, args, env);
      CombineSet("call", EvalEach([obj] + args, env));
    case Await(future, _) =>
      EachOne(future, env);
      CombineSet("await", EvalEach([future], env));
    case AwaitAll(futures, _) => CombineSet("all", EvalEach(futures, env));
    case AwaitRace(futures, _) => CombineSet("race", EvalEach(futures, env));
  }

  lemma NoneUnset(env: Env)
    ensures AllSet(EvalEach([], env))
  {}

  lemma OneUnset(a: Operand, env: Env)
    ensures AllSet(EvalEach([a], env)) <==> EvalOperand(a, env).Some?
  {
    EachOne(a, env);
    assert EvalEach([a], env)[0] == EvalOperand(a, env);
  }

  lemma TwoUnset(a: Operand, b: Operand, env: Env)
    ensures AllSet(EvalEach([a, b], env)) <==> EvalOperand(a, env).Some? && EvalOperand(b, env).Some?
  {
    EachTwo(a, b, env);
    var vs := EvalEach([a, b], env);
    assert vs[0] == EvalOperand(a, env) && vs[1] == EvalOperand(b, env);
  }

  lemma ThreeUnset(a: Operand, b: Operand, c: Operand, env: Env)
    ensures AllSet(EvalEach([a, b, c], env)) <==> EvalOperand(a, env).Some? && EvalOperand(b, env).Some? && EvalOperand(c, env).Some?
  {
    var vs := EvalEach([a, b, c], env);
    assert vs == [EvalOperand(a, env), EvalOperand(b, env), EvalOperand(c, env)];
    assert vs[0] == EvalOperand(a, env) && vs[1] == EvalOperand(b, env) && vs[2] == EvalOperand(c, env);
  }

  lemma ExecKeys(inst: Instruction, env: Env, clears: bool)
    requires Exec(inst, env, clears).Some?
    ensures Exec(inst, env, clears).value.Keys == env.Keys - (if clears then Killed(inst) else Dropped(inst)) + Assigned(inst)
  {
    hide Cleared, EvalOperand, EvalRValue, Combine, LocalsOf;
    match inst
    case Assign(_, rvalue) =>
      if rvalue.Use? {
        ClearedKeys(env, [rvalue.operand], clears);
        LocalsOfOne(rvalue.operand);
      } else {
        ClearedKeys(env, [], clears);
        NoLocals();
      }
    case StoreGlobal(_, val) =>
      ClearedKeys(env, [val], clears);
      LocalsOfOne(val);
    case StoreIndex(_, _, val) =>
      ClearedKeys(env, [val], clears);
      LocalsOfOne(val);
    case StoreField(_, _, val) =>
      ClearedKeys(env, [val], clears);
      LocalsOfOne(val);
    case Await(future, _) =>
      ClearedKeys(env, [future], clears);
      LocalsOfOne(future);
    case AwaitAll(futures, _) => ClearedKeys(env, futures, clears);
    case AwaitRace(futures, _) => ClearedKeys(env, futures, clears);
    case _ =>
  }

  lemma NoLocals()
    ensures LocalsOf([]) == {}
  {}
}
