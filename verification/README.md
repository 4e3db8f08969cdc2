# Verified models of the galfus engine

This project models the parts of the galfus script engine whose correctness is hardest to see from
the code, and proves properties of the models for all inputs, all runs and all reachable states:

- the **ownership heap** of the virtual machine: reference counts split into anchors (registers) and
  edges (object fields), a release cascade, and trial deletion after Bacon and Rajan;
- the **register frames** that hold the anchors;
- the **surface codec**, which moves structured values into and out of that heap;
- the **MIR validator**, a worklist dataflow analysis followed by a check of each block;
- the **bytecode graph**: transactions, rebuilt indexes, transitive dependents, import resolution,
  initialisation order;
- the **virtual kernel**: identifiers, run queue, timers on a virtual clock, thread registry, and the
  global quota counters that must follow the threads;
- the **thread quota**, two atomic counters reserved and rolled back under any interleaving;
- the **adapter bindings**: foreign handles accepted in batches, compensated, released in one step
  or in two with other calls between, closed.

Objects the engine updates in place are classes whose methods are proved against value-level
specifications; decoding, validation of values and path normalisation are functions, as in the
source. `dafny verify dfyconfig.toml` checks the project.

## Where to look

| area | files |
|---|---|
| machine integers, graphs of slots | `Machine`, `EdgeGraph` |
| heap | `HeapObjects`, `HeapSweep`, `TrialDeletion`, `ReleaseCascade`, `HeapStorage`, `MarkOrder`, `Heap`, `HeapMutation`, `ObjectBirth`, `HeapRuns`, `OwnershipRuns`, `EarlyFree` |
| frames | `Registers` |
| surface codec | `Surface`, `SurfaceCodec`, `SurfaceReading`, `SurfaceShapes`, `SurfaceEncoder`, `SurfaceLaws` |
| MIR validator | `Mir`, `InitFlow`, `MirValidator`, `MoveSafety`, `MirEval`, `MirRuns` |
| bytecode graph | `ModulePath`, `ImportEdges`, `BytecodeGraph`, `InitOrder` |
| kernel | `IdManager`, `RunQueue`, `TimerQueue`, `Registry`, `KernelSteps`, `KernelClients`, `Kernel`, `KernelRuns`, `LateGiveBack` |
| atomic quota | `ThreadQuota` |
| adapter bindings | `AdapterLedger`, `AdapterFlights`, `AdapterBindings`, `AdapterRuns` |

## What the code does that its shape does not suggest

Everything below is modelled as written, and where a property fails the condition under which it
holds is stated.

- `collect_roots` paints every candidate Black before `collect_white` looks for White, so that call
  frees nothing (`Heap.PrivateHeap.CollectRoots`). What a collection does free, it frees in
  `mark_roots`, which drains the candidates one after another and releases one whose count is zero,
  although that zero may be the trial decrement of an earlier candidate. Draining is a sweep from all
  candidates exactly if none reaches one drained after it (`Heap.PrivateHeap.MarkRoots`), hence under
  every order exactly if none reaches another (`MarkOrder.EveryOrderIffIndependent`).
  `EarlyFree.FreesReachable` builds a chain of three objects with the heap's own operations and has
  its last object freed while the first is anchored. Trial deletion itself is exact for any set of
  roots (`HeapRuns.TrialDelete`), and a whole collection leaves right counts when the candidates
  cannot reach each other (`Heap.PrivateHeap.CollectCycles`).
- An allocation that finds no slot index keeps the quota it reserved. `Heap.PrivateHeap.Alloc` says
  when that happens; it cannot with an object limit of at most 2^32 - 1, and then a run leaks nothing
  (`HeapStorage.LimitLeavesIndex`, `HeapRuns.RunHeap`).
- Storing a field keeps the new value's retained edge when the store fails, and a stored reference to
  a slot freed in its own generation leaves an edge that no count reflects
  (`HeapMutation.StoreField`, `HeapMutation.DanglingUnbalances`). A new tuple or choice that the heap
  refuses leaves the edges of its elements retained (`ObjectBirth.NewObject`).
- Argument setup overwrites the callee's registers without releasing them. Anchors go on counting
  registers if and only if no overwritten register held an object
  (`Registers.VmThreadState.SetupArgsFromCaller`); `Registers.LosesAnchor` is a run that loses one.
- A choice's variant index is stored in 16 bits. The codec's round trip holds if and only if every
  chosen variant has an index below 65536 (`SurfaceCodec.RoundTrip`);
  `SurfaceLaws.WideChoiceBecomesFirst` gives a value that comes back as another.
- The validator's dataflow kills moved locals between blocks, its in-block check does not, and of
  block arguments only the number is checked. What it does check it checks exactly: acceptance means
  that every checked operand is declared, initialised and not dropped on every path
  (`MirValidator.ValidateFunction`). `MoveSafety.ArgumentsReadyIff` says when that holds of block
  arguments too, and `MoveSafety.MoveSafeIff` when nothing consumed was moved;
  `MoveSafety.AcceptsReadAfterMove` and `MoveSafety.AcceptsUnreadyArguments` are accepted functions
  that fail. Parameters of the entry block count as initialised, although nothing is passed to it. Said
  of runs: if moving leaves a local readable and a missing argument is passed on as junk, an accepted
  function never evaluates a local that is not set (`MirRuns.AcceptedNeverUnset`); if moving clears it
  and arguments must be set, `MirRuns.NeverUnsetIff` says exactly which accepted functions never do.
- Identifiers of tombstones that expire are never handed out again: the id manager is told of
  cancelled threads only (`Kernel.VirtualKernel.MarkExited`, `Kernel.VirtualKernel.Spawn`,
  `KernelRuns.RunKernel`).
- `take_thread` returns one run-queue charge whether or not the thread came off the run queue. The
  kernel stays consistent if and only if the thread waits in no queue and, besides, had just been
  dequeued or leaves behind an empty run queue (`Kernel.VirtualKernel.TakeThread`). The event loop
  also calls it for a thread it has just spawned
  (engine/galfus-runtime/src/orchestrator/event_loop.rs:141-144), where only the second case can
  apply, and completion handling calls it for a thread it has just unblocked, which still waits in the
  run queue (engine/galfus-runtime/src/orchestrator/completion.rs:71-88). Enqueueing that thread again
  charges nothing, so the counter ends one below the queue length
  (`KernelSteps.TakeAndRequeueUndercharges`).
- A thread can be cancelled while a task holds its state
  (engine/galfus-runtime/src/execution.rs:387,
  engine/galfus-runtime/src/orchestrator/event_loop.rs:345-354), and nothing stops it from giving
  the state back afterwards (engine/galfus-runtime/src/orchestrator/event_loop.rs:327-344). The kernel
  then drops the state and still queues or blocks the id and charges for it; the dispatch finds no
  state to take, and the charge is never returned (`LateGiveBack.CancelledThenQueued`), which at a
  limit of one keeps every later thread out of the run queue (`LateGiveBack.ThenNoneIsQueued`). If the
  id has gone to a new thread in the meantime, the old state takes the place of the new one and no
  counter shows it (`LateGiveBack.CancelledThenReplaced`). Each call says exactly when it leaves a
  consistent kernel consistent (`Kernel.VirtualKernel.EnqueueRunnable`,
  `Kernel.VirtualKernel.EnqueueRunnableFront`, `Kernel.VirtualKernel.ParkRunning`,
  `Kernel.VirtualKernel.Block`), and a run stays sound exactly as long as every state is given back
  for the thread now registered under its id, or for none without a charge (`KernelRuns.RunKernel`).
- Tearing a thread down takes its state first and cancels it then, so the cancellation finds no state
  and returns nothing: a blocked thread's charges stay, and the run-queue counter loses one that was
  not the thread's (`Kernel.VirtualKernel.Teardown`, `LateGiveBack.TornDownWhileBlocked`).
- Blocking with a timeout when no timer id is left keeps both quota charges and loses the thread
  state; that path is taken exactly if both limits admit the thread and every timer id is in use,
  which needs a timer limit above 2^32 - 1. A thread blocked twice is charged twice
  (`Kernel.VirtualKernel.Block`).
- A handle can be released in two steps: it is taken out of the table together with its adapter
  module, and the adapter is asked without the table's lock held. If the module was out already, the
  adapter is never asked and the handle is gone (`AdapterRuns.ReleasedWhileAway`). If the adapter
  refuses, the handle goes back under its old binding id, although the proxy may have been removed
  meanwhile, nothing in the table holding it, and the id given to another
  (`AdapterRuns.RestoredToAnother`). These are the only two ways to lose a handle
  (`AdapterBindings.Bindings.FinishRelease`, `AdapterRuns.RunBindings`).
- The two-counter reservation can exceed its limit when a hopeless request wraps a counter before it
  is undone. With a limit `l` and at most `a` in flight at one time, every interleaving keeps the
  limit if and only if `l` or `a` is zero, or `l` is below 2^64 - 1 and `l + a` is at most 2^64
  (`ThreadQuota.LimitsHoldIff`); at the limit 2^64 - 1 the sum saturates and every request passes.

## Machine integers

Counts and generations are 32-bit and saturate or wrap as in the source; quota counters, tokens and
the clock are 64-bit. Assumptions of the form "fewer than 2^32 allocations" or "fewer than 2^64
enqueues" appear as explicit preconditions (`allocations`, `nextToken`, `version`, and the kernel's
quota counters, none of which a run of fewer than 2^64 calls can bring to 2^64 - 1).

## Model

| member | source | states |
|---|---|---|
| HeapObjects.ChildrenAreHeld | engine/galfus-vm/src/heap.rs:259-291 | the children of an object are exactly the references its fields, elements or payload hold, each as often as it is held |
| HeapObjects.RefsInOrder | engine/galfus-vm/src/heap.rs:259-291 | they come in the order of the values |
| HeapObjects.EdgesAreHeld | engine/galfus-vm/src/heap.rs:232-397 | an edge of the object graph is a place in a live object that holds a reference of the target's own generation, counted with multiplicity |
| HeapSweep.SweptEnter | engine/galfus-vm/src/heap.rs:322-342 | a depth-first sweep that paints a slot and then sweeps its children changes each count by exactly the references from the slots it painted |
| HeapSweep.SweepProgress | engine/galfus-vm/src/heap.rs:322-397 | painting a slot shrinks the set of slots not yet painted, which bounds the recursion on cyclic graphs |
| TrialDeletion.MarkedIsScannable | engine/galfus-vm/src/heap.rs:322-342 | marking from any roots of a heap with true counts paints exactly what they reach and leaves each slot the in-edges from elsewhere |
| TrialDeletion.RemainingCountIsExternal | engine/galfus-vm/src/heap.rs:351-375 | the count a scan finds on a Gray slot is positive exactly if an unreached or restored slot refers to it |
| TrialDeletion.ScanFinishes | engine/galfus-vm/src/heap.rs:351-397 | when every root is scanned no reached slot is Gray and White means unreachable from any held slot |
| TrialDeletion.TrialIsExact | engine/galfus-vm/src/heap.rs:322-397 | mark then scan whitens exactly the reached slots that no anchor and no unreached slot keeps alive, and leaves every count equal to the in-edges from the other slots |
| ReleaseCascade.CascadeIsExact | engine/galfus-vm/src/heap.rs:172-257 | a cascade that settles outstanding edges restores true counts and leaves no live slot without anchor and edge |
| ReleaseCascade.ReleasedHeldGoToo | engine/galfus-vm/src/heap.rs:232-257 | what an object freed by a cascade held, with one edge and no anchor, no longer resolves |
| ReleaseCascade.LiveIsReachable | engine/galfus-vm/src/heap.rs:172-291 | on an acyclic object graph with true counts and no idle slot, the live slots are exactly those reachable from anchored ones |
| HeapStorage.TallyCountsLive | engine/galfus-vm/src/heap.rs:51-154 | the object total the quota is compared with is the number of live slots |
| HeapStorage.LimitLeavesIndex | engine/galfus-vm/src/heap.rs:51-91 | with an object limit of at most 2^32 - 1, a granted reservation that finds the free list empty finds a fresh slot index |
| HeapStorage.StaleForever | engine/galfus-vm/src/heap.rs:51-119 | a reference that stopped resolving never resolves again, however often its slot is reused |
| Heap.PrivateHeap.constructor | engine/galfus-vm/src/heap.rs:40-49 | an empty heap satisfies the whole invariant with nothing reserved |
| Heap.PrivateHeap.MarkGray | engine/galfus-vm/src/heap.rs:322-342 | the recursive marking is a sweep from the slot; terminates though the graph may be cyclic |
| Heap.PrivateHeap.ScanBlack | engine/galfus-vm/src/heap.rs:377-397 | the recursive restore is the opposite sweep |
| Heap.PrivateHeap.Scan | engine/galfus-vm/src/heap.rs:351-375 | scanning keeps the scan invariant for any reached part and settles what its root reaches |
| Heap.PrivateHeap.ScanRoots | engine/galfus-vm/src/heap.rs:344-349 | scans every candidate |
| Heap.PrivateHeap.ReleaseInternal | engine/galfus-vm/src/heap.rs:232-257 | frees the slot and cascades: every slot loses exactly the references from freed slots, is freed at most once, and is freed exactly if nothing is left on it; the books stay exact |
| Heap.PrivateHeap.ReleaseEdge | engine/galfus-vm/src/heap.rs:211-230 | succeeds exactly if the reference resolves and then takes one edge off: the slot is freed with what only it held if nothing is left, becomes a Purple candidate if only edges are left, and otherwise stays as it is |
| Heap.PrivateHeap.RetainAnchor | engine/galfus-vm/src/heap.rs:157-170 | adds one anchor, paints Black, leaves the candidates; a stale reference changes nothing |
| Heap.PrivateHeap.RetainEdge | engine/galfus-vm/src/heap.rs:196-209 | the same for an edge |
| Heap.PrivateHeap.ReleaseAnchor | engine/galfus-vm/src/heap.rs:172-194 | takes one anchor off; frees and cascades at zero, makes the slot a Purple candidate if only edges remain; true counts and the absence of idle slots are kept; what a freed object held, with one edge and no anchor, no longer resolves |
| Heap.PrivateHeap.FreeObject | engine/galfus-vm/src/heap.rs:121-155 | empties the slot whatever its counts, returns its quota, lists it free last and queues its handle for drop last |
| Heap.PrivateHeap.TakePendingDrops | engine/galfus-runtime/src/orchestrator/adapter_handles.rs:113-124 | each queued handle drop is handed out once |
| Heap.PrivateHeap.MarkRoots | engine/galfus-vm/src/heap.rs:303-320 | draining Purple edge-held candidates on a heap without Gray slots is a sweep from all of them if and only if no candidate reaches one drained after it; otherwise the first candidate that an earlier one reaches is freed if all its references come from what the earlier ones reach, although an anchored slot may hold it |
| MarkOrder.EveryOrderIffIndependent | engine/galfus-vm/src/heap.rs:303-320 | every order of draining is forward if and only if no candidate reaches another |
| MarkOrder.DrainingEnds | engine/galfus-vm/src/heap.rs:303-320 | the step-by-step account of draining ends in a sweep from all candidates if and only if the order is forward |
| MarkOrder.DrainingFrees | engine/galfus-vm/src/heap.rs:303-320 | with true counts, the first candidate reached by an earlier one and held only from what the earlier ones reach is not live at the end |
| EarlyFree.FreesReachable | engine/galfus-vm/src/heap.rs:303-320 | a heap built by allocation, field stores and anchor releases in which marking frees an object that an anchored object reaches |
| Heap.PrivateHeap.CollectWhite | engine/galfus-vm/src/heap.rs:407-436 | frees White slots only, the slot itself if it is White, and with every freed slot the White slots it refers to |
| Heap.PrivateHeap.CollectRoots | engine/galfus-vm/src/heap.rs:399-405 | paints the candidates Black and clears them; frees nothing |
| Heap.PrivateHeap.CollectCycles | engine/galfus-vm/src/heap.rs:294-301 | keeps the invariant, changes no anchor, revives nothing; with true counts and independent candidates each count ends as the in-edges from slots outside the garbage |
| Heap.PrivateHeap.TryReserveHeap | engine/galfus-vm/src/quota.rs:287-318 | reserves one object and its bytes within both limits, or changes nothing |
| Heap.PrivateHeap.PlaceReserved | engine/galfus-vm/src/heap.rs:65-89 | uses the slot freed last, or else a new one; fails exactly if every slot index is taken, changing nothing |
| Heap.PrivateHeap.Alloc | engine/galfus-vm/src/heap.rs:51-91 | gives a reference never given before, anchored once; anchored objects survive the collection it may run; each error is returned exactly under its stated condition, running out of slot indices only if every slot was taken before the call and, when no collection is due, exactly then; the limit errors change nothing, and running out of indices, which an object limit of at most 2^32 - 1 excludes, leaks exactly the reservation; at every 500th allocation a collection runs first, which leaves no candidate, and with true counts and independent candidates the counts a collection leaves |
| Heap.CollectionExact | engine/galfus-vm/src/heap.rs:294-436 | composes marking, scanning and blackening of independent candidates into the final counts |
| Heap.ReleaseAnchorExact | engine/galfus-vm/src/heap.rs:172-194 | releasing an anchor keeps true counts and no idle slot |
| HeapRuns.ReleaseEdgeExact | engine/galfus-vm/src/heap.rs:211-230 | giving up a reference already dropped by its holder restores both |
| HeapRuns.TrialDelete | engine/galfus-vm/src/heap.rs:303-397 | marking and then scanning any set of candidates through the real methods is exact and leaves no slot Gray |
| HeapRuns.RunOp | engine/galfus-vm/src/heap.rs:51-436 | every operation keeps the invariant; a slot anchored before and after keeps object and generation; an anchor count falls only by a release or forced free of that very object |
| HeapRuns.AnchoredSurvive | engine/galfus-vm/src/heap.rs:51-436 | a slot anchored in every state of a run keeps its object and generation throughout |
| HeapRuns.UnreleasedSurvive | engine/galfus-vm/src/heap.rs:51-436 | an anchored object that no operation of the run releases or frees stays anchored |
| HeapRuns.StaleInRun | engine/galfus-vm/src/heap.rs:51-436 | a reference stale in some state of a run is stale in every later one |
| HeapRuns.RunHeap | engine/galfus-vm/src/heap.rs:51-436 | over any run slots anchored throughout keep object and generation, stale references stay stale, object and byte counters are the live totals plus what was reserved or leaked, and with an object limit of at most 2^32 - 1 nothing leaks |
| OwnershipRuns.RunMutator | engine/galfus-vm/src/heap.rs:51-291 | over any run of allocations, of objects holding references too, retains, releases and field stores, edge counts stay true and no live slot is idle, so on an acyclic object graph the live objects are exactly those reachable from anchored ones |
| OwnershipRuns.EmptyOwned | engine/galfus-vm/src/heap.rs:40-49 | the empty heap meets the invariant of those runs |
| ObjectBirth.NewObject | engine/galfus-vm/src/runtime/objects.rs:256-314 | retains the edge of every reference of the new object and allocates it: with no collection due and references that do not dangle, true edge counts and the absence of idle slots are kept if it succeeds, and if the heap refuses the retained edges are exactly what is left over |
| ObjectBirth.PlacedBalanced | engine/galfus-vm/src/heap.rs:51-91 | placing an object whose references were retained beforehand settles them: counts are true again, no slot is idle, and every held reference is one handed out |
| HeapMutation.StoreField | engine/galfus-vm/src/runtime/objects.rs:75-103 | for any target, field and value: the exact result and error, the exact new heap; true edge counts are kept unless the value dangles, and then lost if the target is anchored; on an error exactly the retained edge is left over |
| HeapMutation.DanglingUnbalances | engine/galfus-vm/src/runtime/objects.rs:75-103 | storing a reference to a slot freed in its own generation into an anchored object leaves counts that are not true |
| HeapMutation.FieldExchange | engine/galfus-vm/src/runtime/objects.rs:75-103 | replacing one field exchanges one occurrence of a target for another, counted with multiplicity |
| Registers.VmThreadState.constructor | engine/galfus-vm/src/thread.rs:37-56 | a new thread owns no object |
| Registers.VmThreadState.ValidMeans | engine/galfus-vm/src/thread.rs:64-167 | anchors of an object equal its occurrences in the registers below the top plus those that argument setup overwrote |
| Registers.VmThreadState.PushFrame | engine/galfus-vm/src/thread.rs:64-103 | opens a contiguous object-free window above the top or fails at the depth limit changing nothing; how many registers there are then is exact |
| Registers.VmThreadState.SetupArgsFromCaller | engine/galfus-vm/src/thread.rs:105-148 | copies each argument with its own anchor, the object register as argument 0 if there is one and the others counted on from the first, and nulls the remaining parameters; anchors count registers afterwards if and only if no overwritten register held an object |
| Registers.ExactIffNothingLost | engine/galfus-vm/src/thread.rs:105-148 | anchors count the registers alone exactly if nothing overwritten was an object |
| Registers.LosesAnchor | engine/galfus-vm/src/thread.rs:105-148 | a run of frame operations after which an object has an anchor that no register accounts for |
| Registers.VmThreadState.WriteReg | engine/galfus-vm/src/thread.rs:219-228 | the register takes over the caller's anchor and the overwritten object's anchor is released |
| Registers.VmThreadState.RetainAnchorVal | engine/galfus-vm/src/thread.rs:230-234 | adds the anchor that a copied value needs |
| Registers.VmThreadState.PopFrame | engine/galfus-vm/src/thread.rs:150-167 | releases every object of the frame, clears its registers, restores the caller's window and flag |
| Registers.RunThread | engine/galfus-vm/src/thread.rs:64-234 | over any run of frame operations, anchors equal occurrences below the top plus overwritten occurrences, and are exact if and only if no object was overwritten |
| Surface.FindField | engine/galfus-contract/src/surface.rs:182-185 | the first field with the name, or none has it |
| Surface.FindVariant | engine/galfus-contract/src/surface.rs:191-194 | the first variant with the name, or none has it |
| Surface.ValidateIsConforms | engine/galfus-contract/src/surface.rs:146-210 | the validator accepts exactly the values of the schema |
| SurfaceCodec.NormalizeTwice | engine/galfus-core/src/numeric.rs:7-25 | float normalisation is idempotent on both widths |
| SurfaceCodec.NormalizeMeans32 | engine/galfus-core/src/numeric.rs:7-25 | by sign, exponent and fraction: every NaN becomes the canonical one, the signed zero becomes zero, nothing else changes |
| SurfaceCodec.NormalizeMeans64 | engine/galfus-core/src/numeric.rs:7-25 | the same for 64 bits |
| SurfaceCodec.RepresentsExtends | engine/galfus-runtime/src/task.rs:503-740 | an encoding stays one in every heap that keeps its objects under their references |
| SurfaceCodec.NonNullEncoding | engine/galfus-runtime/src/task.rs:503-740 | only the null value is encoded as null, so an optional decodes unambiguously |
| SurfaceCodec.RoundTrip | engine/galfus-runtime/src/task.rs:13-226 | decoding an encoding gives the normal form of the value if and only if every choice in it fits 16 bits |
| SurfaceReading.DecodeIffReads | engine/galfus-runtime/src/task.rs:13-226 | decoding gives a value exactly if the heap says so: the machine value, the objects it leads to and the types they are decoded as read, part by part, as that value |
| SurfaceEncoder.EncodeSurface | engine/galfus-runtime/src/task.rs:503-740 | a value that does not conform gives the validator's error and only it does; else, with room for every object of the value, it succeeds exactly if the shapes agree and fails with the first shape error if not; without room it may also exceed the quota; what it leaves on success is an anchored encoding of the value, whatever collections its allocations ran; the heap grows by no more than the value's objects and bytes |
| SurfaceShapes.NoErrorIffAgrees | engine/galfus-runtime/src/task.rs:503-740 | there is no shape error exactly if schema, value and type table agree shape by shape |
| SurfaceEncoder.EncodeBytes | engine/galfus-runtime/src/task.rs:503-740 | byte strings become arrays of bytes; the answer, the growth and the error are as for the whole; the array names its module and element type |
| SurfaceEncoder.EncodeList | engine/galfus-runtime/src/task.rs:503-740 | each element stays encoded while later siblings allocate; the answer, the growth and the error are as for the whole; the array names its module and element type |
| SurfaceEncoder.EncodeTuple | engine/galfus-runtime/src/task.rs:503-740 | the same with one schema and type per element; the answer, the growth and the error are as for the whole |
| SurfaceEncoder.EncodeStruct | engine/galfus-runtime/src/task.rs:503-740 | fields are encoded in schema order whatever order the value has them in; the answer, the growth and the error are as for the whole; the object names its module and layout |
| SurfaceEncoder.EncodeChoice | engine/galfus-runtime/src/task.rs:503-740 | stores the variant's index modulo 65536 and its payload; the answer, the growth and the error are as for the whole; the object names its module and layout |
| SurfaceEncoder.EncodeHandle | engine/galfus-runtime/src/task.rs:503-740 | a handle needs a binding and its declared type; the answer, the growth and the error are as for the whole; the handle has the binding given |
| SurfaceLaws.EncodedValueDecodes | engine/galfus-runtime/src/task.rs:13-226 | what was encoded decodes in every later heap that keeps anchored objects, under the same condition |
| SurfaceLaws.EncodeThenDecode | engine/galfus-runtime/src/task.rs:503-740 | a conforming value whose shapes agree is encoded if there is room for it, and only such values are; decoding then gives the normal form back if and only if choices fit, and that passes the validator |
| SurfaceLaws.NormalConforms | engine/galfus-contract/src/surface.rs:146-210 | normal forms keep their schema when no struct names a field twice |
| SurfaceLaws.BoundedChoicesFit | engine/galfus-runtime/src/task.rs:503-740 | schemas with at most 65536 variants per choice make every value fit |
| SurfaceLaws.WideChoiceIsLost | engine/galfus-runtime/src/task.rs:503-740 | the last of 65537 variants does not come back from any heap that represents it |
| SurfaceLaws.WideChoiceBecomesFirst | engine/galfus-runtime/src/task.rs:13-226 | a type table and a heap that represent it, where it decodes to the first variant |
| InitFlow.ApplyInitializationEffects | engine/galfus-ir/src/validator.rs:228-289 | the block effect: parameters in, then each instruction's kills and definition, then a returned local out |
| InitFlow.BlockPointwise | engine/galfus-ir/src/validator.rs:228-289 | whether a local survives a block depends on that local alone, so the effect distributes over intersection |
| InitFlow.FixpointIsMeet | engine/galfus-ir/src/validator.rs:181-226 | a stable assignment every exclusion of which is justified by a path is the meet over all paths |
| InitFlow.InitializedAtBlockEntries | engine/galfus-ir/src/validator.rs:181-226 | the worklist terminates; a block has an entry exactly if reachable, holding exactly the locals initialised along every path to it |
| MirValidator.ValidateOperand | engine/galfus-ir/src/validator.rs:479-503 | no error exactly if a local operand is declared and initialised; which error is exact |
| MirValidator.ValidateInstruction | engine/galfus-ir/src/validator.rs:313-447 | operands are checked before the destination is defined; only drops take a local out |
| MirValidator.ValidateBasicBlock | engine/galfus-ir/src/validator.rs:307-466 | no error exactly if every read of the block is declared and in the running set |
| MirValidator.CollectBlocks | engine/galfus-ir/src/validator.rs:36-46 | blocks by id, with an error exactly if ids repeat |
| MirValidator.CheckTargets | engine/galfus-ir/src/validator.rs:55-66 | no error exactly if every successor is declared |
| MirValidator.CheckAssignments | engine/galfus-ir/src/validator.rs:68-147 | no error exactly if parameters, block parameters and destinations are all different and argument counts match |
| MirValidator.SingleAssignmentIff | engine/galfus-ir/src/validator.rs:68-110 | the definitions are all different exactly if no local is assigned twice, as parameter of the function or a block or as destination |
| MirValidator.ValidateFunction | engine/galfus-ir/src/validator.rs:34-179 | accepts a function if and only if it is well formed, assigns each local once, and every checked operand is declared, initialised and not dropped on every path to it; blocks no path reaches are checked with every declared local initialised |
| MirValidator.CheckedIffReady | engine/galfus-ir/src/validator.rs:181-503 | an operand passes the check at a position of a reachable block if and only if on every path to it it is declared, was defined, and was not dropped since nor moved by an earlier block |
| MirValidator.AcceptedIffSound | engine/galfus-ir/src/validator.rs:34-503 | acceptance by the dataflow sets is the same as the statement over paths |
| MirValidator.AlongIsReady | engine/galfus-ir/src/validator.rs:228-289 | the locals initialised along a path are exactly those its run defined and has neither dropped nor moved since |
| MirEval.RValueDependsExactly | engine/galfus-ir/src/visit.rs:9-55 | an rvalue has the same value in two environments that set the locals of its operand list exactly if they agree on those |
| MirEval.ExecMeans | engine/galfus-ir/src/validator.rs:228-289 | executing an instruction evaluates exactly the locals its operand list names, and leaves set what was set, without the locals it kills, and with its destination |
| MirRuns.LeaveMeans | engine/galfus-ir/src/visit.rs:182-203 | leaving a block evaluates the checked operands of its terminator and the arguments for where it goes, and goes to a successor |
| MirRuns.BlockUnsetIff | engine/galfus-ir/src/validator.rs:307-466 | running a block stops exactly if it evaluates a local that is not set by then |
| MirRuns.AcceptedNeverUnset | engine/galfus-ir/src/validator.rs:34-503 | on every run of an accepted function, however its branches go, no checked operand is a local that is not set, if moving leaves a local set |
| MirRuns.NeverUnsetIff | engine/galfus-ir/src/validator.rs:34-503 | if moving clears a local and arguments must be set, an accepted function declares its block arguments and never evaluates a local that is not set if and only if the arguments pass the operand check, no local is consumed after a move, and the entry block takes no parameter |
| MirValidator.AcceptedIsSafe | engine/galfus-ir/src/validator.rs:34-503 | on every path from block 0 each checked operand is declared, was defined on that path, and was not dropped since nor moved by an earlier block |
| MoveSafety.MoveSafeIff | engine/galfus-ir/src/validator.rs:228-466 | an accepted function never consumes an undeclared, uninitialised, dropped or moved local, block arguments included, if and only if the arguments pass the operand check and no reachable block consumes a local after moving it without redefinition |
| MoveSafety.ArgumentsReadyIff | engine/galfus-ir/src/validator.rs:111-147 | an accepted function consumes only ready operands, block arguments included, if and only if the arguments of each reachable block pass the check made of other operands |
| MoveSafety.AcceptsReadAfterMove | engine/galfus-ir/src/validator.rs:307-466 | a concrete accepted function that reads a moved local |
| MoveSafety.AcceptsUnreadyArguments | engine/galfus-ir/src/validator.rs:111-147 | a concrete accepted function that passes a moved local and a never defined local as block arguments |
| ModulePath.SplitJoin | engine/galfus-core/src/path.rs:14-41 | splitting rejoined plain segments gives them back |
| ModulePath.DotDotCancels | engine/galfus-core/src/path.rs:14-41 | a segment and the `..` after it cancel, between any two parts of a path |
| ModulePath.DotDrops | engine/galfus-core/src/path.rs:14-41 | `.` and empty segments drop out |
| ModulePath.EndsDrop | engine/galfus-core/src/path.rs:14-41 | a separator of either kind at either end of a path adds nothing |
| ModulePath.NormalizeMeans | engine/galfus-core/src/path.rs:14-41 | a path has a canonical form exactly if it has no NUL, never goes above its root, and what it leads to names a module; the form's segments are, level by level, those by which the path last went down |
| ModulePath.CleanIsCanonical | engine/galfus-core/src/path.rs:14-41 | a path of clean segments is its own canonical form if it names a module, and has none if not |
| ModulePath.NormalizeIsIdempotent | engine/galfus-core/src/path.rs:14-41 | a canonical module path is its own canonical form |
| BytecodeGraph.CheckModule | engine/galfus-bytecode/src/validation.rs:88-120 | the init function and every export index are in range |
| BytecodeGraph.CheckAccess | engine/galfus-bytecode/src/graph.rs:396-444 | a global access is valid exactly if its owner is loaded, has the slot, and exports it unless it is the accessing module; which of these fails is told exactly |
| BytecodeGraph.CheckImport | engine/galfus-bytecode/src/graph.rs:465-499 | an import is valid exactly if its normalised path is indexed and that module exports the symbol; a path without canonical form, a missing module and a missing symbol are told apart exactly |
| BytecodeGraph.Validate | engine/galfus-bytecode/src/graph.rs:377-507 | reports nothing exactly on valid graphs, and a path clash exactly if two modules share a path |
| BytecodeGraph.IndexExports | engine/galfus-bytecode/src/graph.rs:286-299 | every exported symbol is indexed at its last position |
| BytecodeGraph.RebuildTransientIndexes | engine/galfus-bytecode/src/graph.rs:274-301 | a valid graph gets a path index inverse to the module paths, its edges in order, both adjacency indexes and exact export indexes |
| ImportEdges.SortEdges | engine/galfus-bytecode/src/graph.rs:282-283 | the same edges, with multiplicity, ordered by importer and then by imported module |
| ImportEdges.AdjacencyIndex | engine/galfus-bytecode/src/graph.rs:303-317 | each module is listed with the far ends of its edges in edge order, and no module without edges is listed |
| ImportEdges.IndexesMirror | engine/galfus-bytecode/src/graph.rs:284-285 | a module lists another among its dependencies as often as that one lists it among its dependents, which is how often the edge occurs |
| ImportEdges.FarEndsAscend | engine/galfus-bytecode/src/graph.rs:282-285 | over ordered edges both lists of a module are in id order |
| ImportEdges.DependentsOf | engine/galfus-bytecode/src/graph.rs:629-653 | exactly the modules that import the given one directly or through others, each once |
| BytecodeGraph.ValidateTransaction | engine/galfus-bytecode/src/graph.rs:544-607 | accepts exactly the admissible transactions; each error means that the checks before it passed and names the first offender in id order, or in path order |
| BytecodeGraph.ExplainedIsUnique | engine/galfus-bytecode/src/graph.rs:544-607 | what is said of the error determines it |
| BytecodeGraph.PathLeqMeans | engine/galfus-bytecode/src/graph.rs:544-607 | the order of paths in errors is by the first character in which they differ |
| BytecodeGraph.UpdateModules | engine/galfus-bytecode/src/graph.rs:521-535 | retained modules stay, upserted ones replace, removed ones go |
| BytecodeGraph.UpdateKeepsPathsUnique | engine/galfus-bytecode/src/graph.rs:544-607 | an admissible transaction on unique paths leaves unique paths |
| BytecodeGraph.Apply | engine/galfus-bytecode/src/graph.rs:510-542 | gives version + 1 with the transaction's edges and all indexes exact, or fails for the first of: stale version, inadmissible, invalid result; never with a path clash if paths were unique |
| BytecodeGraph.RunTransactions | engine/galfus-bytecode/src/graph.rs:347-542 | every graph published from the empty one on is a valid snapshot whose version counts the accepted transactions |
| InitOrder.ResolveImports | engine/galfus-bytecode/src/graph_resolver.rs:51-96 | resolves every slot or fails with the first that does not resolve and why |
| InitOrder.SnapshotResolves | engine/galfus-bytecode/src/graph_resolver.rs:51-96 | in a published graph every import resolves to the loaded module with that path, to something exported there under the symbol, at an index its functions or globals have |
| InitOrder.CollectInitializationOrder | engine/galfus-bytecode/src/graph_resolver.rs:110-132 | the depth-first search adds only needed modules, dependencies first, and an error is a real cycle or a real unresolved import |
| InitOrder.OrderIsAcyclic | engine/galfus-bytecode/src/graph_resolver.rs:110-132 | no module of a dependency-first order is on an import cycle |
| InitOrder.InitializationOrder | engine/galfus-bytecode/src/graph_resolver.rs:99-108 | on success a duplicate-free dependency-first order of exactly the needed modules ending with the requested one; in a published graph it fails exactly if a needed module is on a cycle, and names one that is |
| IdManager.AllocatedIsNew | engine/galfus-core/src/id_manager.rs:87-98 | an id never active is handed out; none exactly if every id of the range is active |
| IdManager.FreedKeeps | engine/galfus-core/src/id_manager.rs:101-106 | freeing makes an active id available again and ignores any other |
| IdManager.FreedIsNext | engine/galfus-core/src/id_manager.rs:87-106 | an id freed is the next one handed out, and that undoes the freeing |
| IdManager.LocalIdManager.constructor | engine/galfus-core/src/id_manager.rs:75-84 | starts with no id out |
| IdManager.LocalIdManager.TryAllocate | engine/galfus-core/src/id_manager.rs:87-98 | the newest freed id, else the next fresh one, else none |
| IdManager.LocalIdManager.Free | engine/galfus-core/src/id_manager.rs:101-106 | returns an active id, keeping active and free ids apart |
| RunQueue.ViewIsExact | engine/galfus-runtime/src/queue.rs:9-13 | the non-stale entries list each queued thread exactly once |
| RunQueue.RunnableQueue.constructor | engine/galfus-runtime/src/queue.rs:16-22 | an empty queue |
| RunQueue.RunnableQueue.Enqueue | engine/galfus-runtime/src/queue.rs:24-30 | appends, unless the thread waits already |
| RunQueue.RunnableQueue.EnqueueFront | engine/galfus-runtime/src/queue.rs:32-38 | prepends, unless the thread waits already |
| RunQueue.RunnableQueue.DequeueDetailed | engine/galfus-runtime/src/queue.rs:40-48 | takes the head with its front flag, skipping stale entries |
| RunQueue.RunnableQueue.Remove | engine/galfus-runtime/src/queue.rs:66-68 | deletes the thread wherever it waits |
| RunQueue.RunnableQueue.Contains | engine/galfus-runtime/src/queue.rs:62-64 | agrees with the sequence |
| RunQueue.RunnableQueue.Len | engine/galfus-runtime/src/queue.rs:58-60 | agrees with the sequence |
| RunQueue.RunQueueOps | engine/galfus-runtime/src/queue.rs:24-68 | over any run every answer is that of a plain duplicate-free sequence |
| RunQueue.RequeueMoves | engine/galfus-runtime/src/queue.rs:24-68 | a thread removed and queued again waits only at its new position |
| TimerQueue.ExpireIsExact | engine/galfus-runtime/src/queue.rs:155-177 | expiry wakes exactly the threads whose deadline is reached, earlier deadlines first and older timers first among equal ones, and leaves all others |
| TimerQueue.TickTwice | engine/galfus-runtime/src/queue.rs:155-177 | ticking a then b gives the wake list and the whole final state of one tick of the saturated sum |
| TimerQueue.BlockedQueue.constructor | engine/galfus-runtime/src/queue.rs:93-101 | nothing blocked, clock at zero |
| TimerQueue.BlockedQueue.RemoveTimer | engine/galfus-runtime/src/queue.rs:144-152 | takes the thread's timer out of both indexes and frees its id |
| TimerQueue.BlockedQueue.Block | engine/galfus-runtime/src/queue.rs:103-107 | blocks without a timer, dropping an old one |
| TimerQueue.BlockedQueue.BlockWithTimeout | engine/galfus-runtime/src/queue.rs:109-130 | blocks with a fresh timer id and a saturated deadline; fails exactly if every timer id is in use, changing nothing |
| TimerQueue.BlockedQueue.Unblock | engine/galfus-runtime/src/queue.rs:132-136 | unblocks and says whether the thread was blocked and timed |
| TimerQueue.BlockedQueue.Remove | engine/galfus-runtime/src/queue.rs:138-142 | the same for cancellation |
| TimerQueue.BlockedQueue.TickTimeouts | engine/galfus-runtime/src/queue.rs:155-177 | the loop computes the expiry above; the timer set stays exactly the active timers with distinct ids |
| Registry.ExpireOnlyExited | engine/galfus-runtime/src/registry.rs:220-229 | expiry removes only exited blocks and changes no other |
| Registry.ThreadRegistry.constructor | engine/galfus-runtime/src/registry.rs:58-65 | an empty registry |
| Registry.ThreadRegistry.Register | engine/galfus-runtime/src/registry.rs:67-104 | adds a created block and its key, or fails exactly if the key is taken, changing nothing; the registry stays consistent if and only if it failed or the id was not registered |
| Registry.ThreadRegistry.Take | engine/galfus-runtime/src/registry.rs:142-144 | hands the thread state out once |
| Registry.ThreadRegistry.RestoreVmState | engine/galfus-runtime/src/registry.rs:235-239 | puts it back, if the block still exists |
| Registry.ThreadRegistry.MarkRunning | engine/galfus-runtime/src/registry.rs:182-190 | any block not exited becomes running |
| Registry.ThreadRegistry.MarkExited | engine/galfus-runtime/src/registry.rs:192-233 | the block becomes the newest tombstone, with the result given, and exactly the newest 1024 tombstones stay; keys, count and exit order stay exact |
| Registry.ThreadRegistry.Cancel | engine/galfus-runtime/src/registry.rs:241-254 | removes block, key and tombstone |
| Kernel.GlobalQuota.TryReserveRunnableThreads | engine/galfus-vm/src/quota.rs:135-151 | grants exactly if the sum is within the limit, or the limit is 2^64 - 1, where the sum saturates and the counter may wrap; otherwise changes nothing |
| Kernel.GlobalQuota.TryReserveTimers | engine/galfus-vm/src/quota.rs:179-192 | grants exactly if the sum is within the limit, or the limit is 2^64 - 1, where the sum saturates and the counter may wrap; otherwise changes nothing |
| Kernel.GlobalQuota.TryReservePendingStates | engine/galfus-vm/src/quota.rs:198-214 | grants exactly if the sum is within the limit, or the limit is 2^64 - 1, where the sum saturates and the counter may wrap; otherwise changes nothing |
| Kernel.VirtualKernel.constructor | engine/galfus-runtime/src/kernel.rs:20-27 | a consistent empty kernel |
| Kernel.VirtualKernel.Spawn | engine/galfus-runtime/src/kernel.rs:30-58 | the id is held by no registered thread and no expired tombstone, and is the one freed last if any; an admitted spawn with a free key fails if and only if every id is so held; failures change nothing |
| Kernel.VirtualKernel.EnqueueRunnable | engine/galfus-runtime/src/kernel.rs:61-79 | for any id and state: parks it if the thread is registered, queues with one charge unless at the limit; a consistent kernel stays so if and only if the id was queued already, or was admitted, live and not blocked, or was refused and is live or unknown |
| Kernel.VirtualKernel.EnqueueRunnableFront | engine/galfus-runtime/src/kernel.rs:81-99 | the same at the head of the queue |
| Kernel.VirtualKernel.ParkRunning | engine/galfus-runtime/src/kernel.rs:101-103 | for any id and state: gives it back, charging nothing; a consistent kernel stays so if and only if the id is unknown or live |
| Kernel.VirtualKernel.Block | engine/galfus-runtime/src/kernel.rs:105-146 | for any id and state: the exact condition of each failure, and by how much counters and blocked set drift apart; a consistent kernel stays so if and only if the id was blocked, live and waiting nowhere, or a limit refused it and it is live or unknown; timer ids running out is described exactly |
| Kernel.VirtualKernel.Unblock | engine/galfus-runtime/src/kernel.rs:148-163 | returns the charges and queues the thread, or leaves it parked at the run-queue limit; a thread without a state only leaves the blocked set and its charges stay, which a consistent kernel rules out |
| Kernel.VirtualKernel.Cancel | engine/galfus-runtime/src/kernel.rs:165-188 | takes the thread out of every queue and frees its id; its charges are returned exactly if the registry has its state, and what is not returned is stated; a consistent kernel stays so |
| Kernel.VirtualKernel.NextRunnableDetailed | engine/galfus-runtime/src/kernel.rs:196-198 | takes the head of the run queue, still charged; in a consistent kernel it is a live thread with its state, waiting nowhere else |
| Kernel.VirtualKernel.Tick | engine/galfus-runtime/src/kernel.rs:210-227 | wakes exactly the expired threads in order, reports those with a state, returns their charges and queues those the limit admits; the drift is one timer and one pending state for each thread not reported; in a consistent kernel each is queued exactly if those before it left room |
| Kernel.VirtualKernel.TakeThread | engine/galfus-runtime/src/kernel.rs:231-237 | a consistent kernel stays so if and only if the thread waits nowhere and the run queue is empty; after a dequeue, if and only if it waits nowhere |
| Kernel.VirtualKernel.Teardown | engine/galfus-runtime/src/orchestrator/lifecycle.rs:51-56 | by how much each counter drifts from its queue; a consistent kernel stays so if and only if there was no state to take, or the thread was queued, or it was not blocked and the run queue empty |
| KernelSteps.TakeAndRequeueUndercharges | engine/galfus-runtime/src/kernel.rs:81-89 | taking a thread still in the run queue and enqueueing it again leaves the counter one below the queue length |
| Kernel.VirtualKernel.TakeCreatedThread | engine/galfus-runtime/src/kernel.rs:239-241 | hands out a created thread, charging nothing; the kernel stays consistent if and only if nothing was handed out or the thread waits in no queue |
| Kernel.VirtualKernel.MarkRunning | engine/galfus-runtime/src/kernel.rs:262-264 | changes the state only |
| Kernel.VirtualKernel.MarkExited | engine/galfus-runtime/src/kernel.rs:266-274 | on a live thread one live thread less, one tombstone more, at most 1024, expired ids retired; the kernel stays consistent if and only if the id is unknown, or live and in no queue |
| KernelClients.GivenLinear | engine/galfus-runtime/src/kernel.rs:101-103 | a thread state given back keeps states and threads matched if and only if its own thread is the one registered under the id, or none is |
| KernelClients.ExitedLinear | engine/galfus-runtime/src/kernel.rs:266-274 | the same of a state given back to mark its thread exited: a thread has exited if and only if its own state was given back for that |
| KernelRuns.RunOp | engine/galfus-runtime/src/kernel.rs:20-274 | every call of any client that gives back only states it was handed keeps the parts valid, changes the surplus of the counters as stated, keeps a sound world sound if and only if it was safe, and registers no retired id |
| KernelRuns.SoundIffSafe | engine/galfus-runtime/src/kernel.rs:20-274 | a run is sound up to a point if and only if every call before it was safe when it was made |
| KernelRuns.SoundMeans | engine/galfus-runtime/src/kernel.rs:20-274 | in a sound world pending states equal blocked threads, timers equal active timers, runnable threads equal the run queue, no thread is in two places, and keys, live count, tombstones and ids agree with the blocks |
| KernelRuns.SurplusIsDrift | engine/galfus-runtime/src/kernel.rs:20-274 | in any run, safe or not, each counter differs from what it counts by exactly the drifts of the calls so far |
| KernelRuns.NeverReused | engine/galfus-runtime/src/kernel.rs:30-58 | an id retired at some point of a run is registered by no later call |
| KernelRuns.RunKernel | engine/galfus-runtime/src/kernel.rs:20-274 | over every sequence of calls on a new kernel, states given back late after a cancellation included: the parts stay valid, counters differ from what they count by the stated drifts, and kernel and thread identity are sound up to any point if and only if every call before it was safe |
| LateGiveBack.CancelledThenQueued | engine/galfus-runtime/src/orchestrator/event_loop.rs:327-354 | a thread cancelled while its state is out and then queued: the run queue is empty again and one charge is left |
| LateGiveBack.ThenNoneIsQueued | engine/galfus-runtime/src/kernel.rs:61-79 | after it, at a limit of one, a new thread is not admitted to the empty run queue |
| LateGiveBack.CancelledThenReplaced | engine/galfus-runtime/src/kernel.rs:101-103 | the new thread with the cancelled one's id ends up with the cancelled one's state, and the kernel is consistent |
| LateGiveBack.TornDownWhileBlocked | engine/galfus-runtime/src/orchestrator/lifecycle.rs:51-56 | a blocked thread torn down leaves its pending charge, and at a limit of one no thread can be blocked any more |
| ThreadQuota.RunExact | engine/galfus-vm/src/quota.rs:287-323 | after any interleaving each counter is what the calls hold, modulo 2^64 |
| ThreadQuota.QuietCountersAreGranted | engine/galfus-vm/src/quota.rs:382-420 | with no call in flight the counters hold the granted totals modulo 2^64: failed calls leave no residue |
| ThreadQuota.ReservationIsSafe | engine/galfus-vm/src/quota.rs:382-420 | under every interleaving with amounts in flight bounded so that the limits are safe, the granted totals stay within both limits and quiet counters equal them |
| ThreadQuota.UnsafeLimitBreaks | engine/galfus-vm/src/quota.rs:382-411 | for every other limit and bound there is an interleaving within the bound that grants more than the limit |
| ThreadQuota.LimitsHoldIff | engine/galfus-vm/src/quota.rs:382-420 | the limits hold under every interleaving within the bounds if and only if each limit or its bound is zero, or the limit is below 2^64 - 1 and limit plus bound is at most 2^64 |
| AdapterLedger.BatchAccepted | engine/galfus-contract/src/lib.rs:595-605 | accepting a batch keeps numbering, table and history consistent |
| AdapterLedger.BindingRemoved | engine/galfus-contract/src/lib.rs:446-458 | removing a binding with no handle keeps them consistent |
| AdapterLedger.ReleasedHandle | engine/galfus-contract/src/lib.rs:646-678 | a successful release moves one handle from the table to the released ones, for good |
| AdapterLedger.BelongsMeans | engine/galfus-contract/src/lib.rs:702-704 | a type belongs to a proxy exactly if its module is the proxy's name without any `.gfp` suffixes |
| AdapterFlights.HandleDeparts | engine/galfus-contract/src/lib.rs:624-639 | taking a handle out for release keeps every accepted handle in exactly one place |
| AdapterFlights.FlightLands | engine/galfus-contract/src/lib.rs:641-644 | finishing a release keeps that if and only if the adapter was asked and a handle it refused goes back to a binding id that still stands for its registration; otherwise that handle is lost |
| AdapterBindings.CheckBatch | engine/galfus-contract/src/lib.rs:545-566 | what is set aside for compensation is exactly the entries that continue the numbering with types of the proxy; the flags are raised exactly if that is not all of the batch, or ids run out |
| AdapterBindings.Bindings.Compensate | engine/galfus-contract/src/lib.rs:567-587 | with the module in place, offers back the given handles in order, up to and including the first refused; without it, none, and that is an error if there was one to offer |
| AdapterBindings.Bindings.constructor | engine/galfus-contract/src/lib.rs:324-329 | an empty table |
| AdapterBindings.Bindings.RegisterModule | engine/galfus-contract/src/lib.rs:421-444 | a new binding id with numbering from 1; an error exactly if the proxy is registered, or else every id is in use, changing nothing |
| AdapterBindings.Bindings.RemoveBinding | engine/galfus-contract/src/lib.rs:446-458 | refused exactly while a handle of the binding is in the table |
| AdapterBindings.Bindings.TakeModule | engine/galfus-contract/src/lib.rs:473-475 | takes the module out, once |
| AdapterBindings.Bindings.RestoreModule | engine/galfus-contract/src/lib.rs:477-492 | puts it back exactly if it was out |
| AdapterBindings.Bindings.RegisterHandles | engine/galfus-contract/src/lib.rs:530-606 | whole batch or nothing: accepted exactly if it continues the numbering; a rejected batch changes neither table nor next id, and is compensated by exactly the calls for the entries that could have been accepted, until one is refused; which error is returned is exact |
| AdapterBindings.Bindings.ReleaseHandle | engine/galfus-contract/src/lib.rs:646-678 | one adapter call for a handle in the table; it leaves the table exactly if the call succeeds |
| AdapterBindings.Bindings.TakeForRelease | engine/galfus-runtime/src/orchestrator/adapter_handles.rs:162-171 | takes the handle out exactly if it is in the table, and its module along exactly if it is there |
| AdapterBindings.Bindings.FinishRelease | engine/galfus-runtime/src/orchestrator/adapter_handles.rs:173-204 | the whole new table for any answer of the adapter; it stays consistent if and only if the module was taken along and a refused handle's registration is still current |
| AdapterBindings.Bindings.Close | engine/galfus-contract/src/lib.rs:681-693 | every handle is reported once; what remains is what failed, plus what belongs to modules taken out; the counts are those of the adapters' answers |
| AdapterRuns.RunBindings | engine/galfus-contract/src/lib.rs:421-693 | over any run with releases left open and any adapter answers, each registration accepts 1, 2, 3, ..., an accepted handle is in the table, out for release or released and only one of these, and is released at most once, up to the first release finished without its adapter or put back to another registration, which loses its handle |
| AdapterRuns.ReleasedWhileAway | engine/galfus-runtime/src/orchestrator/adapter_handles.rs:187-190 | a handle released while its module is out: no call is made, and the handle is neither in the table nor released |
| AdapterRuns.RestoredToAnother | engine/galfus-runtime/src/orchestrator/adapter_handles.rs:198-204 | a proxy removed while a release is open and its id reused: a refused handle turns up under the other proxy |

## Left out

- Heap.PrivateHeap.CollectCycles: that every dead cycle is freed, or that nothing reachable is, is not claimed; `collect_roots` frees nothing, and EarlyFree.FreesReachable refutes the second.
- BytecodeGraph.CheckModule: instruction-level validity of a module is one flag of the model, because the per-instruction checks are alike and say nothing of the graph; export and init bounds are modelled.
- Diagnostics: the text and order of validation errors of functions and graphs, and which of several errors the surface validator reports.
- What MIR operators compute: values are terms, and a spread element is not told from a single one.
- OwnershipRuns.RunMutator: allocations due to run a collection, refused ones of objects with references, stores that miss their target, and references that dangle or would saturate a count are skipped and counted; Heap.PrivateHeap.Alloc, Heap.PrivateHeap.CollectCycles, ObjectBirth.NewObject and HeapMutation.StoreField say what those do.
- Heap teardown: the drop of a heap and of a thread state (engine/galfus-vm/src/heap.rs:501-509), which repeats frees already modelled.
- `extract_adapter_handles` and the queries over live objects (engine/galfus-vm/src/heap.rs:439-498).
- Other object instructions: arrays, tuples and deep copies store and release as `StoreField` does.
- Future values: `encode_future_value_into_thread_heap` is a second encoder of the same shape.
- Surface fingerprints and the contract registry: hashing is not modelled.
- Float arithmetic: floats are bit patterns; only the normalisation of NaN and zero is modelled.
- Loading graphs from packages: graphs are built by transactions only.
- Mailboxes and their quota release on exit, and the counter of spawned threads: whether that counter admits a spawn is an input of `Spawn`.
- Other counters of the global quota (futures, requests, events, kernel tasks, external handles): the same reserve and release pair.
- One global quota is shared by all threads of a kernel, and no one else changes its counters.
- The orchestrator around the kernel: it enters as the client of `KernelRuns`, which gives back only states it was handed, each once, at any time.
- Which adapter module is in place: modules are told apart only by being there or taken out. The counter of external handles is not kept.
- Iteration order of hash maps and of `close`: the properties hold for any; where it matters, for the candidates of a collection, the order is a parameter.
- HeapMutation.StoreField: a value that refers beyond the slot table is excluded, because no operation hands one out and the heap invariant asks that held references be in the table.
- HeapRuns.RunHeap: an allocation whose object refers beyond the slot table is skipped, because the engine never builds one.
- Registers.VmThreadState.SetupArgsFromCaller: argument and parameter counts beyond the callee's registers are excluded, because validated calls stay within them.
- Registers.RunThread: register numbers outside the frame are skipped, because validated bytecode never issues them.
- MirValidator.AcceptedIsSafe: moves inside a block are not covered, because the validator does not track them; MoveSafety.MoveSafeIff says exactly when they matter.
