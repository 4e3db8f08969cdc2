/** Register frames of one thread and the anchors they own in its heap. */
module Registers {
  import opened Machine
  import opened HeapObjects
  import opened ReleaseCascade
  import opened HeapStorage
  import opened Heap

  const MIN_REGISTERS: nat := 64

  datatype CallFrame = CallFrame(
    moduleId: nat, funcIdx: nat, pc: nat, registerBase: nat, returnDest: Option<nat>, hasObjects: bool)

  datatype FrameError = CallDepthExceeded | EmptyCallStack | RegisterOutOfBounds(reg: nat)

  // ----- counting references held in registers -----

  function Holds(v: VmValue, s: nat): nat {
    if v.Object? && v.ref.index == s then 1 else 0
  }

  /** How many registers refer to slot `s`. */
  function Occurrences(regs: seq<VmValue>, s: nat): nat {
    if regs == [] then 0
    else Occurrences(regs[..|regs| - 1], s) + Holds(regs[|regs| - 1], s)
  }

  lemma {:induction false} OccurrencesReplace(regs: seq<VmValue>, i: nat, v: VmValue, s: nat)
    requires i < |regs|
    ensures Occurrences(regs[i := v], s) + Holds(regs[i], s) == Occurrences(regs, s) + Holds(v, s)
  {
    var n := |regs| - 1;
    if i < n {
      OccurrencesReplace(regs[..n], i, v, s);
      assert regs[i := v][..n] == regs[..n][i := v];
    } else {
      assert regs[i := v][..n] == regs[..n];
    }
  }

  lemma {:induction false} OccurrencesPositive(regs: seq<VmValue>, s: nat)
    ensures Occurrences(regs, s) > 0 <==> exists i :: 0 <= i < |regs| && Holds(regs[i], s) == 1
  {
    if regs != [] {
      var n := |regs| - 1;
      OccurrencesPositive(regs[..n], s);
      if i :| 0 <= i < |regs| && Holds(regs[i], s) == 1 {
        if i < n { assert regs[..n][i] == regs[i]; }
      }
    }
  }

  /** Registers from `top` on hold no object. */
  ghost predicate ClearFrom(regs: seq<VmValue>, top: nat) {
    forall i :: top <= i < |regs| ==> !regs[i].Object?
  }

  /** Only registers below the top count. */
  lemma {:induction false} OccurrencesBelowTop(regs: seq<VmValue>, top: nat, s: nat)
    requires top <= |regs| && ClearFrom(regs, top)
    ensures Occurrences(regs, s) == Occurrences(regs[..top], s) <= top
    decreases |regs|
  {
    var n := |regs| - 1;
    if regs == [] {
    } else if top < |regs| {
      OccurrencesBelowTop(regs[..n], top, s);
      assert regs[..n][..top] == regs[..top];
    } else {
      OccurrencesBelowTop(regs[..n], n, s);
      assert regs[..top] == regs && regs[..n][..n] == regs[..n];
    }
  }

  lemma {:induction false} OccurrencesExtend(regs: seq<VmValue>, more: seq<VmValue>, s: nat)
    requires ClearFrom(more, 0)
    ensures Occurrences(regs + more, s) == Occurrences(regs, s)
  {
    if more == [] {
      assert regs + more == regs;
    } else {
      var n := |more| - 1;
      OccurrencesExtend(regs, more[..n], s);
      assert (regs + more)[..|regs| + n] == regs + more[..n];
    }
  }

  lemma {:induction false} OccurrencesConcat(a: seq<VmValue>, b: seq<VmValue>, s: nat)
    ensures Occurrences(a + b, s) == Occurrences(a, s) + Occurrences(b, s)
  {
    if b == [] {
      assert a + b == a;
    } else {
      var n := |b| - 1;
      OccurrencesConcat(a, b[..n], s);
      assert (a + b)[..|a| + n] == a + b[..n];
    }
  }

  // ----- ownership -----

  /** Every reference in a register resolves, and each live slot has one anchor per register that
      refers to it, plus one for the value in flight. */
  ghost predicate Owned(regs: seq<VmValue>, slots: seq<HeapSlot>, inFlight: VmValue) {
    && (forall i :: 0 <= i < |regs| && regs[i].Object? ==> Resolves(slots, regs[i].ref))
    && (inFlight.Object? ==> Resolves(slots, inFlight.ref))
    && (forall s :: s in Live(slots) ==> slots[s].anchors == Occurrences(regs, s) + Holds(inFlight, s))
  }

  /** Writing the value in flight puts the overwritten one in flight. */
  lemma OwnedExchange(regs: seq<VmValue>, slots: seq<HeapSlot>, i: nat, v: VmValue)
    requires i < |regs| && Owned(regs, slots, v)
    ensures Owned(regs[i := v], slots, regs[i])
  {
    forall s | s in Live(slots)
      ensures slots[s].anchors == Occurrences(regs[i := v], s) + Holds(regs[i], s)
    {
      OccurrencesReplace(regs, i, v, s);
    }
  }

  /** The same with references that were overwritten without being released kept in front. */
  lemma LostExchange(lost: seq<VmValue>, regs: seq<VmValue>, slots: seq<HeapSlot>, i: nat, v: VmValue)
    requires i < |regs| && Owned(lost + regs, slots, v)
    ensures Owned(lost + regs[i := v], slots, regs[i])
  {
    OwnedExchange(lost + regs, slots, |lost| + i, v);
    assert (lost + regs)[|lost| + i := v] == lost + regs[i := v];
  }

  /** A value in flight that nobody releases is lost. */
  lemma OwnedLost(lost: seq<VmValue>, regs: seq<VmValue>, slots: seq<HeapSlot>, v: VmValue)
    requires Owned(lost + regs, slots, v)
    ensures Owned((lost + [v]) + regs, slots, Null)
  {
    var a, b := lost + regs, (lost + [v]) + regs;
    forall i | 0 <= i < |b| && b[i].Object? ensures Resolves(slots, b[i].ref) {
      if i < |lost| { assert a[i] == b[i]; } else if i > |lost| { assert a[i - 1] == b[i]; }
    }
    forall s | s in Live(slots) ensures slots[s].anchors == Occurrences(b, s) + Holds(Null, s) {
      OccurrencesConcat(lost, regs, s);
      OccurrencesConcat(lost + [v], regs, s);
      OccurrencesConcat(lost, [v], s);
      assert [v][..0] == [];
      assert Occurrences([v], s) == Holds(v, s);
    }
  }

  /** Anchors count the registers alone exactly if nothing lost was an object. */
  lemma ExactIffNothingLost(lost: seq<VmValue>, regs: seq<VmValue>, slots: seq<HeapSlot>)
    requires Owned(lost + regs, slots, Null)
    ensures Owned(regs, slots, Null) <==> ClearFrom(lost, 0)
  {
    var both := lost + regs;
    forall s ensures Occurrences(both, s) == Occurrences(lost, s) + Occurrences(regs, s) { OccurrencesConcat(lost, regs, s); }
    forall i | 0 <= i < |regs| && regs[i].Object? ensures Resolves(slots, regs[i].ref) { assert both[|lost| + i] == regs[i]; }
    if Owned(regs, slots, Null) {
      forall i | 0 <= i < |lost| ensures !lost[i].Object? {
        if lost[i].Object? {
          var s := lost[i].ref.index;
          assert both[i] == lost[i];
          assert s in Live(slots) && Holds(lost[i], s) == 1;
          OccurrencesPositive(lost, s);
          assert false;
        }
      }
    }
    if ClearFrom(lost, 0) {
      forall s | s in Live(slots) ensures slots[s].anchors == Occurrences(regs, s) {
        OccurrencesPositive(lost, s);
      }
    }
  }

  lemma OwnedPlain(regs: seq<VmValue>, slots: seq<HeapSlot>, v: VmValue, w: VmValue)
    requires Owned(regs, slots, v) && !v.Object? && !w.Object?
    ensures Owned(regs, slots, w)
  {}

  /** Frees of unanchored slots never touch a register's object. */
  lemma OwnedShrunk(regs: seq<VmValue>, a: seq<HeapSlot>, b: seq<HeapSlot>, v: VmValue)
    requires Owned(regs, a, v) && Shrunk(a, b)
    ensures Owned(regs, b, v)
  {
    forall i | 0 <= i < |regs| && regs[i].Object? ensures Resolves(b, regs[i].ref) {
      var s := regs[i].ref.index;
      assert s in Live(a) && Holds(regs[i], s) == 1;
      OccurrencesPositive(regs, s);
    }
    if v.Object? { assert v.ref.index in Live(a); }
    forall s | s in Live(b) ensures b[s].anchors == Occurrences(regs, s) + Holds(v, s) {
      assert s in Live(a);
    }
  }

  /** Releasing the value in flight settles the count. */
  lemma OwnedReleased(regs: seq<VmValue>, a: seq<HeapSlot>, ra: set<nat>, r: ObjectRef, b: seq<HeapSlot>, rb: set<nat>)
    requires Owned(regs, a, Object(r)) && AnchorReleased(a, ra, r.index, b, rb)
    ensures Owned(regs, b, Null)
  {
    var a' := a[r.index := a[r.index].(anchors := SatSub(a[r.index].anchors, 1))];
    OwnedUnanchored(regs, a, r, a');
    hide Owned, Live;
    OwnedShrunk(regs, a', b, Null);
  }

  /** One anchor less: the value in flight no longer is. */
  lemma OwnedUnanchored(regs: seq<VmValue>, a: seq<HeapSlot>, r: ObjectRef, a': seq<HeapSlot>)
    requires Owned(regs, a, Object(r)) && r.index < |a|
    requires a' == a[r.index := a[r.index].(anchors := SatSub(a[r.index].anchors, 1))]
    ensures Owned(regs, a', Null)
  {}

  /** Retaining a live value puts it in flight. */
  lemma OwnedRetained(regs: seq<VmValue>, a: seq<HeapSlot>, r: ObjectRef, b: seq<HeapSlot>, top: nat)
    requires Owned(regs, a, Null) && Resolves(a, r) && top <= |regs| && ClearFrom(regs, top) && top < U32_MAX
    requires b == a[r.index := a[r.index].(anchors := SatAdd32(a[r.index].anchors, 1), color := Black)]
    ensures Owned(regs, b, Object(r))
  {
    OccurrencesBelowTop(regs, top, r.index);
    assert Live(a) == Live(b);
  }

  /** A freshly allocated object is in flight with its one anchor. */
  lemma OwnedAllocated(regs: seq<VmValue>, a: seq<HeapSlot>, b: seq<HeapSlot>, r: ObjectRef)
    requires Owned(regs, a, Null) && ShrunkBut(a, b, {r.index})
    requires r.index < |b| && b[r.index].generation == r.generation && b[r.index].obj.Some? && b[r.index].anchors == 1
    requires AnchoredKept(a, b) && r.index !in Anchored(a)
    ensures Owned(regs, b, Object(r))
  {
    forall i | 0 <= i < |regs| && regs[i].Object? ensures Resolves(b, regs[i].ref) && regs[i].ref.index != r.index {
      var s := regs[i].ref.index;
      assert s in Live(a) && Holds(regs[i], s) == 1;
      OccurrencesPositive(regs, s);
      assert s in Anchored(a);
    }
    OccurrencesPositive(regs, r.index);
    forall s | s in Live(b) ensures b[s].anchors == Occurrences(regs, s) + Holds(Object(r), s) {
      if s != r.index { assert s in Live(a); }
    }
  }

  lemma OwnedUnplaced(regs: seq<VmValue>, a: seq<HeapSlot>, b: seq<HeapSlot>)
    requires Owned(regs, a, Null) && ShrunkBut(a, b, {})
    ensures Owned(regs, b, Null)
  {
    assert Shrunk(a, b[..|a|]);
    OwnedShrunk(regs, a, b[..|a|], Null);
    assert Live(b) == Live(b[..|a|]);
  }

  // ----- frames -----

  ghost predicate NoObjects(regs: seq<VmValue>, lo: nat, hi: nat) {
    forall i :: lo <= i < hi && i < |regs| ==> !regs[i].Object?
  }

  /** Frame windows are contiguous: each starts where the one below it ends. */
  ghost predicate Stacked(frames: seq<CallFrame>, base: nat, top: nat, size: nat) {
    && base <= top <= size
    && (frames == [] ==> base == 0 && top == 0)
    && (frames != [] ==> frames[0].registerBase == 0 && base == frames[|frames| - 1].registerBase)
    && (forall j, k :: 0 <= j <= k < |frames| ==> frames[j].registerBase <= frames[k].registerBase)
  }

  /** Frame `k` saved the flag of the frame below it: false means that window holds no object. */
  ghost predicate WindowFlag(frames: seq<CallFrame>, regs: seq<VmValue>, k: nat)
    requires 1 <= k < |frames|
  {
    !frames[k].hasObjects ==> NoObjects(regs, frames[k - 1].registerBase, frames[k].registerBase)
  }

  ghost predicate Flags(frames: seq<CallFrame>, regs: seq<VmValue>, base: nat, top: nat, hasObjects: bool) {
    && (!hasObjects ==> NoObjects(regs, base, top))
    && (forall k :: 1 <= k < |frames| ==> WindowFlag(frames, regs, k))
  }

  lemma FlagsPush(frames: seq<CallFrame>, regs: seq<VmValue>, base: nat, top: nat, hasObjects: bool, regs': seq<VmValue>, frame: CallFrame, top': nat)
    requires Stacked(frames, base, top, |regs|) && Flags(frames, regs, base, top, hasObjects) && ClearFrom(regs, top)
    requires |regs| <= |regs'| && regs'[..|regs|] == regs && ClearFrom(regs', |regs|) && top <= top' <= |regs'|
    requires frame.registerBase == top && frame.hasObjects == hasObjects
    ensures Stacked(frames + [frame], top, top', |regs'|) && Flags(frames + [frame], regs', top, top', false)
    ensures ClearFrom(regs', top) && ClearFrom(regs', top')
  {
    assert forall i :: 0 <= i < |regs| ==> regs'[i] == regs[i];
    var frames' := frames + [frame];
    forall k | 1 <= k < |frames'| ensures WindowFlag(frames', regs', k) {
      if k < |frames| {
        assert WindowFlag(frames, regs, k);
        assert frames'[k] == frames[k] && frames'[k - 1] == frames[k - 1];
      }
    }
  }

  lemma FlagsPop(frames: seq<CallFrame>, regs: seq<VmValue>, base: nat, top: nat, hasObjects: bool)
    requires Stacked(frames, base, top, |regs|) && Flags(frames, regs, base, top, hasObjects) && frames != []
    requires NoObjects(regs, base, top) && ClearFrom(regs, top)
    ensures var rest, frame := frames[..|frames| - 1], frames[|frames| - 1];
      var base' := if rest == [] then 0 else rest[|rest| - 1].registerBase;
      && Stacked(rest, base', frame.registerBase, |regs|)
      && Flags(rest, regs, base', frame.registerBase, frame.hasObjects)
      && ClearFrom(regs, frame.registerBase)
  {
    var rest := frames[..|frames| - 1];
    if rest != [] { assert WindowFlag(frames, regs, |frames| - 1); }
    forall k | 1 <= k < |rest| ensures WindowFlag(rest, regs, k) {
      assert WindowFlag(frames, regs, k);
    }
  }

  /** Writing into the current window leaves the windows below alone. */
  lemma FlagsWrite(frames: seq<CallFrame>, regs: seq<VmValue>, base: nat, top: nat, hasObjects: bool, i: nat, v: VmValue, flag: bool)
    requires Stacked(frames, base, top, |regs|) && Flags(frames, regs, base, top, hasObjects)
    requires base <= i < top && frames != [] && (hasObjects ==> flag) && (v.Object? ==> flag)
    ensures Flags(frames, regs[i := v], base, top, flag)
  {
    var regs' := regs[i := v];
    forall k | 1 <= k < |frames| ensures WindowFlag(frames, regs', k) {
      assert WindowFlag(frames, regs, k);
    }
  }

  class VmThreadState {
    var callStack: seq<CallFrame>
    var registers: seq<VmValue>
    var base: nat
    var top: nat
    var hasObjects: bool
    const heap: PrivateHeap
    const maxCallDepth: nat
    /** Values that were overwritten without being released. */
    ghost var lost: seq<VmValue>

    /** Everything but one value, which its caller has retained and not yet stored. */
    ghost predicate ValidWith(inFlight: VmValue)
      reads this, heap
    {
      && heap.Valid()
      && Owned(lost + registers, heap.objects, inFlight)
      && Stacked(callStack, base, top, |registers|)
      && Flags(callStack, registers, base, top, hasObjects)
      && ClearFrom(registers, top)
    }

    ghost predicate Valid()
      reads this, heap
    {
      ValidWith(Null)
    }

    /** Anchors count the registers and nothing else. */
    ghost predicate Exact()
      reads this, heap
    {
      Owned(registers, heap.objects, Null)
    }

    /** What the invariant means: anchors count the registers below the top and the lost values, no
        register above the top holds an object, windows are contiguous, and a false flag means an
        object-free frame. */
    lemma ValidMeans(s: nat)
      requires Valid() && s in Live(heap.objects)
      ensures heap.objects[s].anchors == Occurrences(registers[..top], s) + Occurrences(lost, s)
    {
      OccurrencesBelowTop(registers, top, s);
      OccurrencesConcat(lost, registers, s);
    }

    constructor (heap: PrivateHeap, maxCallDepth: nat)
      requires heap.Valid() && heap.objects == []
      ensures Valid() && Exact() && this.heap == heap && this.maxCallDepth == maxCallDepth
      ensures callStack == [] && registers == [] && lost == [] && top == 0
    {
      callStack, registers, base, top, hasObjects := [], [], 0, 0, false;
      this.heap := heap;
      this.maxCallDepth := maxCallDepth;
      lost := [];
    }

    method PushFrame(moduleId: nat, funcIdx: nat, pc: nat, returnDest: Option<nat>, registerCount: nat)
      returns (result: Result<(), FrameError>)
      requires Valid()
      modifies this
      ensures Valid()
      ensures result.Err? <==> old(|callStack|) >= maxCallDepth
      ensures result.Err? ==>
        callStack == old(callStack) && registers == old(registers) && base == old(base) && top == old(top) && hasObjects == old(hasObjects)
      ensures result.Ok? ==>
        && callStack == old(callStack) + [CallFrame(moduleId, funcIdx, pc, old(top), returnDest, old(hasObjects))]
        && base == old(top) && top == old(top) + registerCount && !hasObjects
        && |old(registers)| <= |registers| == Room(|old(registers)|, top) && registers[..|old(registers)|] == old(registers)
      ensures lost == old(lost)
    {
      hide Owned, Flags, Stacked, Sound, StoredIn, ClearFrom;
      if |callStack| >= maxCallDepth {
        return Err(CallDepthExceeded);
      }
      assert top <= |registers| by { StackedTop(callStack, base, top, |registers|); }
      var registerBase := top;
      var newTop := registerBase + registerCount;
      GrowRegisters(newTop);
      var frame := CallFrame(moduleId, funcIdx, pc, registerBase, returnDest, hasObjects);
      FlagsPush(callStack, old(registers), base, top, hasObjects, registers, frame, newTop);
      base, top := registerBase, newTop;
      callStack := callStack + [frame];
      hasObjects := false;
      return Ok(());
    }

    /** Makes room for registers up to `newTop`, new ones null. */
    method GrowRegisters(newTop: nat)
      requires Valid()
      modifies this`registers
      ensures heap.Valid() && Owned(lost + registers, heap.objects, Null)
      ensures newTop <= |registers| && |old(registers)| <= |registers| == Room(|old(registers)|, newTop)
      ensures registers[..|old(registers)|] == old(registers) && ClearFrom(registers, |old(registers)|)
    {
      hide Owned, Flags, Stacked, Sound, StoredIn;
      if newTop > |registers| {
        var grown := (if |registers| < MIN_REGISTERS then MIN_REGISTERS else |registers|) * 2;
        var size := if newTop < grown then grown else newTop;
        var nulls := seq(size - |registers|, _ => Null);
        OwnedExtend(lost + registers, nulls, heap.objects, Null);
        assert (lost + registers) + nulls == lost + (registers + nulls);
        registers := registers + nulls;
      }
      assert registers[..|old(registers)|] == old(registers);
    }

    /** The caller holds the anchor that the register takes over. */
    method WriteReg(reg: nat, val: VmValue)
      requires ValidWith(val) && callStack != [] && base + reg < top
      modifies this`registers, this`hasObjects, heap
      ensures Valid()
      ensures registers == old(registers)[old(base) + reg := val]
      ensures hasObjects == (old(hasObjects) || val.Object?)
    {
      hide Owned, Flags, Stacked, AnchorReleased;
      var idx := base + reg;
      assert top <= |registers| by { StackedTop(callStack, base, top, |registers|); }
      FlagsWrite(callStack, registers, base, top, hasObjects, idx, val, hasObjects || val.Object?);
      LostExchange(lost, registers, heap.objects, idx, val);
      if val.Object? {
        hasObjects := true;
      }
      var previous := registers[idx];
      registers := registers[idx := val];
      Release(previous);
    }

    /** Releases the anchor of a value no register holds any more. */
    method Release(val: VmValue)
      requires heap.Valid() && Owned(lost + registers, heap.objects, val)
      modifies heap
      ensures heap.Valid() && Owned(lost + registers, heap.objects, Null)
    {
      hide AnchorReleased;
      if val.Object? {
        ghost var before, roots := heap.objects, heap.roots;
        var _ := heap.ReleaseAnchor(val.ref);
        OwnedReleased(lost + registers, before, roots, val.ref, heap.objects, heap.roots);
      } else {
        OwnedPlain(lost + registers, heap.objects, val, Null);
      }
    }

    method RetainAnchorVal(val: VmValue)
      requires Valid() && |lost| + top < U32_MAX && (val.Object? ==> Resolves(heap.objects, val.ref))
      modifies heap
      ensures ValidWith(val)
      ensures Live(heap.objects) == old(Live(heap.objects))
    {
      hide Flags, Stacked, Owned, Sound, StoredIn, Live, ClearFrom;
      assert top <= |registers| by { StackedTop(callStack, base, top, |registers|); }
      ClearBehind(lost, registers, top);
      if val.Object? {
        ghost var before := heap.objects;
        var _ := heap.RetainAnchor(val.ref);
        LiveAgree(before, heap.objects);
        OwnedRetained(lost + registers, before, val.ref, heap.objects, |lost| + top);
      } else {
        OwnedPlain(lost + registers, heap.objects, Null, val);
      }
    }

    /** Retains what register `src` holds and writes it over a register of the current frame, whose
        old value is not released. */
    method CopyArg(src: nat, dest: nat)
      requires Valid() && |lost| + top < U32_MAX && callStack != [] && src < |registers|
      requires base <= dest < top && dest < |registers|
      modifies this`registers, this`hasObjects, this`lost, heap
      ensures Valid() && registers == old(registers)[dest := old(registers)[src]] && lost == old(lost) + [old(registers)[dest]]
    {
      hide Owned, Flags, Stacked, Sound, StoredIn, Resolves;
      var val := registers[src];
      LostResolves(lost, registers, heap.objects, Null, src);
      FlagsWeaken(callStack, registers, base, top, hasObjects, hasObjects || val.Object?);
      if val.Object? {
        hasObjects := true;
      }
      RetainAnchorVal(val);
      FlagsWrite(callStack, registers, base, top, hasObjects, dest, val, hasObjects);
      LostExchange(lost, registers, heap.objects, dest, val);
      OwnedLost(lost, registers[dest := val], heap.objects, registers[dest]);
      lost := lost + [registers[dest]];
      registers := registers[dest := val];
    }

    /** Copies the caller's arguments into the frame on top, retaining each object, and nulls the
        parameters without an argument. What the registers held before is overwritten and not
        released: anchors still count the registers exactly if none of it was an object. */
    method SetupArgsFromCaller(argsStart: nat, argCount: nat, calleeParamCount: nat, hasObj: Option<nat>)
      returns (result: Result<(), FrameError>)
      requires Valid() && |lost| + top + Max(argCount, calleeParamCount) < U32_MAX
      requires |callStack| >= 2 ==> argCount <= top - base && calleeParamCount <= top - base
      modifies this`registers, this`hasObjects, this`lost, heap
      ensures Valid() && |registers| == |old(registers)|
      ensures result == Err(EmptyCallStack) <==> |callStack| < 2
      ensures result.Err? && |callStack| >= 2 ==>
        exists i :: 0 <= i < argCount && result == Err(RegisterOutOfBounds(ArgSource(argsStart, hasObj, i)))
          && callStack[|callStack| - 2].registerBase + ArgSource(argsStart, hasObj, i) >= |registers|
      ensures |lost| <= |old(lost)| + Max(argCount, calleeParamCount)
      ensures result.Ok? ==>
        && base + Max(argCount, calleeParamCount) <= |registers|
        && ArgsCopied(old(registers), registers, callStack[|callStack| - 2].registerBase, base, argsStart, hasObj, argCount)
        && AllNull(registers, base + argCount, base + calleeParamCount)
        && lost == old(lost) + old(registers)[base..base + Max(argCount, calleeParamCount)]
      ensures result.Ok? && old(Exact()) ==> (Exact() <==> NoObjects(old(registers), base, base + Max(argCount, calleeParamCount)))
    {
      hide Owned, Flags, Stacked, Sound, StoredIn, ArgsCopied, AllNull, ClearFrom, NoObjects;
      if |callStack| < 2 {
        return Err(EmptyCallStack);
      }
      result := CopyArgs(argsStart, argCount, hasObj);
      if result.Err? {
        return;
      }
      NullParams(old(registers), old(lost), callStack[|callStack| - 2].registerBase, argsStart, hasObj, argCount, calleeParamCount);
      if old(Exact()) { LostInWindow(old(lost), lost, old(registers), registers, base, Max(argCount, calleeParamCount), old(heap.objects), heap.objects); }
    }

    /** Each argument in turn, until a source register does not exist. */
    method CopyArgs(argsStart: nat, argCount: nat, hasObj: Option<nat>) returns (result: Result<(), FrameError>)
      requires Valid() && |callStack| >= 2 && argCount <= top - base && |lost| + top + argCount < U32_MAX
      modifies this`registers, this`hasObjects, this`lost, heap
      ensures Valid() && |registers| == |old(registers)| && |lost| <= |old(lost)| + argCount
      ensures result.Err? ==>
        exists i :: 0 <= i < argCount && result == Err(RegisterOutOfBounds(ArgSource(argsStart, hasObj, i)))
          && callStack[|callStack| - 2].registerBase + ArgSource(argsStart, hasObj, i) >= |registers|
      ensures result.Ok? ==> ArgsCopied(old(registers), registers, callStack[|callStack| - 2].registerBase, base, argsStart, hasObj, argCount)
      ensures result.Ok? ==> Overwriting(old(registers), registers, base, argCount, old(lost), lost)
    {
      hide Owned, Flags, Stacked, Sound, StoredIn, ArgsCopied, ClearFrom, Overwriting;
      StackedTwo(callStack, base, top, |registers|);
      var callerBase := callStack[|callStack| - 2].registerBase;
      var calleeBase := callStack[|callStack| - 1].registerBase;
      ArgsStart(registers, callerBase, base, argsStart, hasObj);
      OverwriteStarts(registers, base, lost);
      for i := 0 to argCount
        invariant Valid() && |registers| == |old(registers)|
        invariant ArgsCopied(old(registers), registers, callerBase, base, argsStart, hasObj, i)
        invariant Overwriting(old(registers), registers, base, i, old(lost), lost) && |lost| == |old(lost)| + i
      {
        var srcReg := ArgSource(argsStart, hasObj, i);
        if callerBase + srcReg >= |registers| {
          return Err(RegisterOutOfBounds(srcReg));
        }
        ghost var before, lostSoFar := registers, lost;
        CopyArg(callerBase + srcReg, calleeBase + i);
        ArgsStep(old(registers), before, registers, callerBase, base, argsStart, hasObj, i);
        OverwriteStep(old(registers), before, base, i, before[callerBase + srcReg], old(lost), lostSoFar);
      }
      return Ok(());
    }

    /** Parameters without an argument are null. */
    method NullParams(ghost was: seq<VmValue>, ghost lostBefore: seq<VmValue>, ghost callerBase: nat, ghost argsStart: nat, ghost hasObj: Option<nat>,
                      argCount: nat, calleeParamCount: nat)
      requires Valid() && |callStack| >= 2 && argCount <= top - base && calleeParamCount <= top - base
      requires ArgsCopied(was, registers, callerBase, base, argsStart, hasObj, argCount)
      requires Overwriting(was, registers, base, argCount, lostBefore, lost)
      modifies this`registers, this`lost
      ensures Valid() && ArgsCopied(was, registers, callerBase, base, argsStart, hasObj, argCount)
      ensures AllNull(registers, base + argCount, base + calleeParamCount)
      ensures Overwriting(was, registers, base, Max(argCount, calleeParamCount), lostBefore, lost)
    {
      hide Owned, Flags, Stacked, Sound, StoredIn, ArgsCopied, AllNull, ClearFrom, Overwriting;
      StackedTwo(callStack, base, top, |registers|);
      var calleeBase := callStack[|callStack| - 1].registerBase;
      NullStart(registers, base + argCount);
      var i := argCount;
      while i < calleeParamCount
        invariant argCount <= i && (i <= calleeParamCount || i == argCount)
        invariant Valid() && |registers| == |old(registers)|
        invariant ArgsCopied(was, registers, callerBase, base, argsStart, hasObj, argCount)
        invariant AllNull(registers, base + argCount, base + i)
        invariant Overwriting(was, registers, base, i, lostBefore, lost)
      {
        FlagsWrite(callStack, registers, base, top, hasObjects, calleeBase + i, Null, hasObjects);
        LostExchange(lost, registers, heap.objects, calleeBase + i, Null);
        OwnedLost(lost, registers[calleeBase + i := Null], heap.objects, registers[calleeBase + i]);
        ClearWrite(registers, top, calleeBase + i);
        NullStep(was, registers, callerBase, base, argsStart, hasObj, argCount, i);
        OverwriteStep(was, registers, base, i, Null, lostBefore, lost);
        lost := lost + [registers[calleeBase + i]];
        registers := registers[calleeBase + i := Null];
        i := i + 1;
      }
      if calleeParamCount < argCount { NullNone(registers, base + argCount, base + calleeParamCount); }
    }

    method PopFrame() returns (result: Option<CallFrame>)
      requires Valid()
      modifies this, heap
      ensures Valid()
      ensures result.None? <==> old(callStack) == []
      ensures lost == old(lost)
      ensures result.None? ==> callStack == [] && registers == old(registers) && top == old(top)
      ensures result.Some? ==>
        && old(callStack) == callStack + [result.value]
        && top == old(base) && hasObjects == result.value.hasObjects
        && |registers| == |old(registers)| && forall j :: 0 <= j < top ==> registers[j] == old(registers)[j]
    {
      hide Owned, Flags, Stacked, Sound, StoredIn, ClearFrom;
      if callStack == [] {
        return None;
      }
      ghost var frames := callStack;
      var frame := callStack[|callStack| - 1];
      StackedLast(callStack, base, top, |registers|);
      callStack := callStack[..|callStack| - 1];
      if hasObjects {
        for i := frame.registerBase to top
          invariant base == old(base) && top == old(top) && hasObjects && callStack == frames[..|frames| - 1]
          invariant base <= i && heap.Valid() && Owned(lost + registers, heap.objects, Null) && lost == old(lost)
          invariant |registers| == |old(registers)| && top <= |registers| && Flags(frames, registers, base, top, true)
          invariant NoObjects(registers, base, i) && ClearFrom(registers, top)
          invariant forall j :: 0 <= j < base ==> registers[j] == old(registers)[j]
        {
          var val := registers[i];
          FlagsWrite(frames, registers, base, top, true, i, Null, true);
          LostExchange(lost, registers, heap.objects, i, Null);
          ClearWrite(registers, top, i);
          registers := registers[i := Null];
          Release(val);
        }
      } else {
        FlagsCurrent(frames, registers, base, top);
      }
      FlagsPop(frames, registers, base, top, hasObjects);
      top := frame.registerBase;
      base := if callStack == [] then 0 else callStack[|callStack| - 1].registerBase;
      hasObjects := frame.hasObjects;
      return Some(frame);
    }

    /** Copies one register of the current frame to another, as a move instruction does. */
    method CopyReg(dest: nat, src: nat)
      requires Valid() && callStack != [] && base + dest < top && base + src < top && |lost| + top < U32_MAX
      modifies this`registers, this`hasObjects, heap
      ensures Valid() && registers == old(registers)[base + dest := old(registers)[base + src]]
    {
      hide Owned, Flags, Stacked, Sound, StoredIn, Resolves, ClearFrom;
      StackedLast(callStack, base, top, |registers|);
      LostResolves(lost, registers, heap.objects, Null, base + src);
      var val := registers[base + src];
      RetainAnchorVal(val);
      WriteReg(dest, val);
    }

    /** Allocates an object straight into a register; a collection may run on the way. */
    method AllocReg(dest: nat, obj: HeapObject) returns (result: Result<ObjectRef, HeapError>)
      requires Valid() && callStack != [] && base + dest < top
      requires RefsInRange(GetChildren(obj), |heap.objects|)
      modifies this`registers, this`hasObjects, heap
      ensures Valid()
      ensures registers == if result.Ok? then old(registers)[base + dest := Object(result.value)] else old(registers)
      ensures old(heap.heapObjects) < heap.maxObjects <= U32_MAX && old(heap.heapBytes) + HeapBytes(heap.header, obj) <= heap.maxBytes ==> result.Ok?
    {
      hide Flags, Stacked, Owned, Evolves, Placed, Sound, StoredIn, ClearFrom, AnchoredKept, ShrunkBut, Anchored, RefsInRange;
      StackedLast(callStack, base, top, |registers|);
      ghost var before := heap.objects;
      result := heap.Alloc(obj);
      if result.Ok? {
        OwnedAllocated(lost + registers, before, heap.objects, result.value);
        WriteReg(dest, Object(result.value));
      } else {
        OwnedUnplaced(lost + registers, before, heap.objects);
        assert result.error.ObjectLimit? || result.error.ByteLimit? || result.error.IdCounterExhausted?;
      }
    }
  }

  /** The caller register that argument `i` comes from; register numbers are 16 bits wide. */
  function ArgSource(argsStart: nat, hasObj: Option<nat>, i: nat): nat {
    if hasObj.Some? && i == 0 then hasObj.value else (argsStart + i) % U16_COUNT
  }

  /** Registers below the frame are untouched, and each argument taken from below the frame
      arrived: the object register as argument 0 if there is one, the others counted on from the first. */
  ghost predicate ArgsCopied(a: seq<VmValue>, b: seq<VmValue>, callerBase: nat, base: nat, argsStart: nat, hasObj: Option<nat>, n: nat) {
    && |a| == |b|
    && (forall j :: 0 <= j < base && j < |a| ==> b[j] == a[j])
    && (n > 0 && hasObj.Some? && callerBase + hasObj.value < base < |b| ==> b[base] == a[callerBase + hasObj.value])
    && (forall i :: (if hasObj.Some? then 1 else 0) <= i < n && callerBase + OnFrom(argsStart, i) < base && base + i < |b| ==>
          b[base + i] == a[callerBase + OnFrom(argsStart, i)])
  }

  ghost function OnFrom(argsStart: nat, i: nat): nat {
    (argsStart + i) % U16_COUNT
  }

  ghost predicate AllNull(regs: seq<VmValue>, lo: nat, hi: nat) {
    forall i :: lo <= i < hi && i < |regs| ==> regs[i] == Null
  }

  lemma ArgsStart(a: seq<VmValue>, callerBase: nat, base: nat, argsStart: nat, hasObj: Option<nat>)
    requires base <= |a|
    ensures ArgsCopied(a, a, callerBase, base, argsStart, hasObj, 0)
  {}

  lemma ArgsStep(s: seq<VmValue>, a: seq<VmValue>, b: seq<VmValue>, callerBase: nat, base: nat, argsStart: nat, hasObj: Option<nat>, i: nat)
    requires ArgsCopied(s, a, callerBase, base, argsStart, hasObj, i) && base + i < |a|
    requires callerBase + ArgSource(argsStart, hasObj, i) < |a| && b == a[base + i := a[callerBase + ArgSource(argsStart, hasObj, i)]]
    ensures ArgsCopied(s, b, callerBase, base, argsStart, hasObj, i + 1)
  {}

  lemma NullStart(regs: seq<VmValue>, lo: nat)
    ensures AllNull(regs, lo, lo)
  {}

  lemma NullNone(regs: seq<VmValue>, lo: nat, hi: nat)
    requires hi <= lo
    ensures AllNull(regs, lo, hi)
  {}

  lemma NullStep(s: seq<VmValue>, a: seq<VmValue>, callerBase: nat, base: nat, argsStart: nat, hasObj: Option<nat>, n: nat, i: nat)
    requires ArgsCopied(s, a, callerBase, base, argsStart, hasObj, n) && n <= i && base + i < |a|
    requires AllNull(a, base + n, base + i)
    ensures ArgsCopied(s, a[base + i := Null], callerBase, base, argsStart, hasObj, n)
    ensures AllNull(a[base + i := Null], base + n, base + i + 1)
  {}

  lemma ClearWrite(regs: seq<VmValue>, top: nat, i: nat)
    requires ClearFrom(regs, top) && i < |regs|
    ensures ClearFrom(regs[i := Null], top)
  {}

  lemma FlagsWeaken(frames: seq<CallFrame>, regs: seq<VmValue>, base: nat, top: nat, flag: bool, flag': bool)
    requires Flags(frames, regs, base, top, flag) && (flag ==> flag')
    ensures Flags(frames, regs, base, top, flag')
  {}

  lemma StackedTwo(frames: seq<CallFrame>, base: nat, top: nat, size: nat)
    requires Stacked(frames, base, top, size) && |frames| >= 2
    ensures base == frames[|frames| - 1].registerBase && frames[|frames| - 2].registerBase <= base <= top <= size
  {}

  lemma StackedLast(frames: seq<CallFrame>, base: nat, top: nat, size: nat)
    requires Stacked(frames, base, top, size) && frames != []
    ensures base == frames[|frames| - 1].registerBase <= top <= size
  {}

  lemma FlagsCurrent(frames: seq<CallFrame>, regs: seq<VmValue>, base: nat, top: nat)
    requires Flags(frames, regs, base, top, false)
    ensures NoObjects(regs, base, top)
  {}

  lemma LostResolves(lost: seq<VmValue>, regs: seq<VmValue>, slots: seq<HeapSlot>, v: VmValue, i: nat)
    requires Owned(lost + regs, slots, v) && i < |regs|
    ensures regs[i].Object? ==> Resolves(slots, regs[i].ref)
  {
    assert (lost + regs)[|lost| + i] == regs[i];
  }

  lemma ClearBehind(lost: seq<VmValue>, regs: seq<VmValue>, top: nat)
    requires ClearFrom(regs, top)
    ensures ClearFrom(lost + regs, |lost| + top)
  {}

  /** How many registers there are once `top` must fit: as many as before, or at least twice as many. */
  ghost function Room(size: nat, top: nat): nat {
    if top <= size then size else Max(top, 2 * Max(size, MIN_REGISTERS))
  }

  function Max(a: nat, b: nat): nat {
    if a < b then b else a
  }

  /** The first `i` registers of the window were overwritten and their old values lost. */
  ghost predicate Overwriting(was: seq<VmValue>, regs: seq<VmValue>, base: nat, i: nat, lostBefore: seq<VmValue>, lost: seq<VmValue>) {
    && |was| == |regs| && base + i <= |was|
    && (forall j :: base + i <= j < |was| ==> regs[j] == was[j])
    && lost == lostBefore + was[base..base + i]
  }

  lemma OverwriteStarts(regs: seq<VmValue>, base: nat, lost: seq<VmValue>)
    requires base <= |regs|
    ensures Overwriting(regs, regs, base, 0, lost, lost)
  {
    assert lost + regs[base..base + 0] == lost;
  }

  /** One more register of the window is overwritten. */
  lemma OverwriteStep(was: seq<VmValue>, a: seq<VmValue>, base: nat, i: nat, v: VmValue, lostBefore: seq<VmValue>, lost: seq<VmValue>)
    requires Overwriting(was, a, base, i, lostBefore, lost) && base + i < |a|
    ensures Overwriting(was, a[base + i := v], base, i + 1, lostBefore, lost + [a[base + i]])
  {
    assert was[base..base + i + 1] == was[base..base + i] + [was[base + i]];
  }

  /** A window overwritten whole loses its objects, and nothing else. */
  lemma LostInWindow(lost: seq<VmValue>, lost': seq<VmValue>, regs: seq<VmValue>, regs': seq<VmValue>, base: nat, n: nat, a: seq<HeapSlot>, b: seq<HeapSlot>)
    requires base + n <= |regs| && lost' == lost + regs[base..base + n]
    requires Owned(lost + regs, a, Null) && Owned(regs, a, Null) && Owned(lost' + regs', b, Null)
    ensures Owned(regs', b, Null) <==> NoObjects(regs, base, base + n)
  {
    hide Owned;
    ExactIffNothingLost(lost, regs, a);
    ExactIffNothingLost(lost', regs', b);
    var window := regs[base..base + n];
    if ClearFrom(lost', 0) {
      forall i | base <= i < base + n && i < |regs| ensures !regs[i].Object? { assert lost'[|lost| + i - base] == regs[i]; }
    }
    if NoObjects(regs, base, base + n) {
      forall i | 0 <= i < |lost'| ensures !lost'[i].Object? {
        if i >= |lost| { assert lost'[i] == regs[base + i - |lost|]; }
      }
    }
  }

  lemma StackedTop(frames: seq<CallFrame>, base: nat, top: nat, size: nat)
    requires Stacked(frames, base, top, size)
    ensures base <= top <= size
  {}

  lemma OwnedExtend(regs: seq<VmValue>, more: seq<VmValue>, slots: seq<HeapSlot>, v: VmValue)
    requires Owned(regs, slots, v) && ClearFrom(more, 0)
    ensures Owned(regs + more, slots, v)
  {
    forall s | s in Live(slots) { OccurrencesExtend(regs, more, s); }
  }

  // ----- runs -----

  datatype FrameOp =
    | DoPush(moduleId: nat, funcIdx: nat, pc: nat, returnDest: Option<nat>, registerCount: nat)
    | DoArgs(argsStart: nat, argCount: nat, paramCount: nat, hasObj: Option<nat>)
    | DoCopy(dest: nat, src: nat)
    | DoNew(dest: nat, obj: HeapObject)
    | DoPop

  /** Registers or parameters the operation asks for. */
  function Width(op: FrameOp): nat {
    match op
    case DoPush(_, _, _, _, registerCount) => registerCount
    case DoArgs(_, argCount, paramCount, _) => Max(argCount, paramCount)
    case _ => 0
  }

  function TotalWidth(ops: seq<FrameOp>): nat {
    if ops == [] then 0 else TotalWidth(ops[..|ops| - 1]) + Width(ops[|ops| - 1])
  }

  method RunFrameOp(t: VmThreadState, op: FrameOp)
    requires t.Valid() && |t.lost| + t.top + Width(op) < U32_MAX
    modifies t, t.heap
    ensures t.Valid() && |t.lost| + t.top <= old(|t.lost| + t.top) + Width(op)
    ensures !op.DoArgs? ==> t.lost == old(t.lost)
  {
    hide Owned, Flags, Stacked, Sound, StoredIn, ClearFrom, NoObjects, ArgsCopied, AllNull;
    StackedTop(t.callStack, t.base, t.top, |t.registers|);
    match op {
      case DoPush(moduleId, funcIdx, pc, returnDest, registerCount) =>
        var _ := t.PushFrame(moduleId, funcIdx, pc, returnDest, registerCount);
      case DoArgs(argsStart, argCount, paramCount, hasObj) =>
        if |t.callStack| < 2 || (argCount <= t.top - t.base && paramCount <= t.top - t.base) {
          var _ := t.SetupArgsFromCaller(argsStart, argCount, paramCount, hasObj);
        }
      case DoCopy(dest, src) =>
        if t.callStack != [] && t.base + dest < t.top && t.base + src < t.top {
          t.CopyReg(dest, src);
        }
      case DoNew(dest, obj) =>
        if t.callStack != [] && t.base + dest < t.top && RefsInRange(GetChildren(obj), |t.heap.objects|) {
          var _ := t.AllocReg(dest, obj);
        }
      case DoPop =>
        var _ := t.PopFrame();
    }
  }

  /** Any run of frame operations, allocations and the collections they trigger included, from a
      fresh thread or any valid one: every live object has exactly one anchor per register below
      the top that refers to it, and one per reference that argument setup has overwritten; so the
      anchors are exact exactly if no object was overwritten. An operation whose register numbers do
      not fit the frames, which validated bytecode never issues, is skipped. */
  method RunThread(t: VmThreadState, ops: seq<FrameOp>)
    requires t.Valid() && |t.lost| + t.top + TotalWidth(ops) < U32_MAX
    modifies t, t.heap
    ensures t.Valid()
    ensures forall s :: s in Live(t.heap.objects) ==>
      t.heap.objects[s].anchors == Occurrences(t.registers[..t.top], s) + Occurrences(t.lost, s)
    ensures t.Exact() <==> ClearFrom(t.lost, 0)
    ensures (forall k :: 0 <= k < |ops| ==> !ops[k].DoArgs?) ==> t.lost == old(t.lost)
  {
    hide Owned, Flags, Stacked, Sound, StoredIn, ClearFrom;
    for k := 0 to |ops|
      invariant t.Valid() && |t.lost| + t.top <= old(|t.lost| + t.top) + TotalWidth(ops[..k])
      invariant (forall j :: 0 <= j < k ==> !ops[j].DoArgs?) ==> t.lost == old(t.lost)
    {
      TotalWidthStep(ops, k);
      RunFrameOp(t, ops[k]);
    }
    assert ops[..|ops|] == ops;
    StackedTop(t.callStack, t.base, t.top, |t.registers|);
    forall s | s in Live(t.heap.objects) ensures t.heap.objects[s].anchors == Occurrences(t.registers[..t.top], s) + Occurrences(t.lost, s) {
      t.ValidMeans(s);
    }
    ExactIffNothingLost(t.lost, t.registers, t.heap.objects);
  }

  lemma {:induction false} TotalWidthStep(ops: seq<FrameOp>, k: nat)
    requires k < |ops|
    ensures TotalWidth(ops[..k + 1]) == TotalWidth(ops[..k]) + Width(ops[k]) <= TotalWidth(ops)
    decreases |ops|
  {
    assert ops[..k + 1][..k] == ops[..k];
    var n := |ops| - 1;
    if k < n {
      TotalWidthStep(ops[..n], k);
      assert ops[..n][..k + 1] == ops[..k + 1] && ops[..n][..k] == ops[..k];
    } else {
      assert ops[..k + 1] == ops;
    }
  }

  // ----- a frame that loses an anchor -----

  /** Two frames, an object in the upper one, and argument setup over it: the object keeps an anchor
      that no register accounts for. */
  method LosesAnchor() returns (t: VmThreadState)
    ensures t.Valid() && !t.Exact()
  {
    hide Owned, Flags, Stacked, Sound, StoredIn, ClearFrom, ArgsCopied, AllNull;
    var heap := new PrivateHeap(1, 1, 1);
    t := new VmThreadState(heap, 2);
    var _ := t.PushFrame(0, 0, 0, None, 1);
    var _ := t.PushFrame(0, 0, 0, None, 1);
    assert t.base == 1 && t.top == 2 && t.callStack[0].registerBase == 0;
    StackedTop(t.callStack, t.base, t.top, |t.registers|);
    var obj := StructObject(0, 0, [], 0);
    var r := t.AllocReg(0, obj);
    assert t.registers[1].Object?;
    assert t.Exact() by { ExactWhenNothingLost(t.lost, t.registers, heap.objects); }
    var result := t.SetupArgsFromCaller(0, 1, 1, None);
    assert ArgSource(0, None, 0) == 0;
    assert result.Ok?;
  }

  lemma ExactWhenNothingLost(lost: seq<VmValue>, regs: seq<VmValue>, slots: seq<HeapSlot>)
    requires Owned(lost + regs, slots, Null) && lost == []
    ensures Owned(regs, slots, Null)
  {
    assert lost + regs == regs;
  }
}
