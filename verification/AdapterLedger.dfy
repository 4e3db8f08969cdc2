/** What happens to foreign handles, written down: accepted, live, out for release, released. */
module AdapterLedger {
  import opened Machine
  import opened HeapObjects
  import opened IdManager

  type BindingId = nat
  type HandleId = nat

  datatype Handle = Handle(binding: BindingId, typeId: OpaqueTypeId, id: HandleId)

  /** `attached` is false while a caller has taken the adapter module out. */
  datatype Binding = Binding(id: BindingId, nextHandle: Option<HandleId>, attached: bool)

  type Modules = map<string, Binding>
  type Batch = seq<(OpaqueTypeId, HandleId)>

  /** What an adapter module answers when asked to release a handle. */
  datatype Reply = Released | AlreadyReleased | Failed

  datatype BindingError = DuplicateProxyModule | IdSpaceExhausted | InvalidHandle | HandlesStillActive | CompensationReleaseFailed

  // ----- proxy names -----

  function TrimEnd(s: string, suffix: string): string
    requires suffix != ""
  {
    if |suffix| <= |s| && s[|s| - |suffix|..] == suffix then TrimEnd(s[..|s| - |suffix|], suffix) else s
  }

  predicate BelongsToProxy(typeId: OpaqueTypeId, proxy: string) {
    typeId.proxyModule == TrimEnd(proxy, ".gfp")
  }

  lemma TrimOne(s: string, suffix: string)
    requires suffix != ""
    ensures TrimEnd(s + suffix, suffix) == TrimEnd(s, suffix)
  {
    assert (s + suffix)[|s|..] == suffix && (s + suffix)[..|s|] == s;
  }

  predicate HasSuffix(s: string, suffix: string) {
    |suffix| <= |s| && s[|s| - |suffix|..] == suffix
  }

  lemma TrimNone(s: string, suffix: string)
    requires suffix != "" && !HasSuffix(s, suffix)
    ensures TrimEnd(s, suffix) == s
  {}

  /** Trimming takes off every copy of the suffix at the end, and nothing else. */
  lemma {:induction false} TrimMeans(s: string, suffix: string, n: nat)
    requires suffix != "" && !HasSuffix(s, suffix)
    ensures TrimEnd(s + Copies(suffix, n), suffix) == s
  {
    hide TrimEnd, HasSuffix;
    if n == 0 {
      assert s + Copies(suffix, n) == s;
      TrimNone(s, suffix);
    } else {
      var front := s + Copies(suffix, n - 1);
      TrimMeans(s, suffix, n - 1);
      TrimOne(front, suffix);
      assert s + Copies(suffix, n) == front + suffix;
    }
  }

  /** A type belongs to the proxies called as its module, with any number of suffixes. */
  lemma BelongsMeans(typeId: OpaqueTypeId, name: string, n: nat)
    requires !HasSuffix(name, ".gfp")
    ensures BelongsToProxy(typeId, name + Copies(".gfp", n)) <==> typeId.proxyModule == name
  {
    TrimMeans(name, ".gfp", n);
  }

  function Copies(s: string, n: nat): string {
    if n == 0 then "" else Copies(s, n - 1) + s
  }

  // ----- the ledger: what has happened, for stating properties -----

  /** A release call made to the adapter of one registration. */
  datatype Call = Call(registration: nat, typeId: OpaqueTypeId, id: HandleId, reply: Reply, compensating: bool)

  /** Registrations are numbered in order; each has the list of handles it accepted. Those in `out`
      have been taken from the table for a release that is not finished. */
  datatype Ledger = Ledger(current: map<BindingId, nat>, accepted: seq<Batch>, log: seq<Call>, out: set<(nat, HandleId)>)

  ghost function BindingIds(modules: Modules): set<BindingId> {
    set p | p in modules :: modules[p].id
  }

  function NextHandle(n: nat): Option<HandleId> {
    if n < U32_MAX then Some(n + 1) else None
  }

  ghost predicate Consecutive(batch: Batch, from: nat) {
    forall i :: 0 <= i < |batch| ==> batch[i].1 == from + 1 + i
  }

  /** Handle `id` was accepted in registration `r`. */
  ghost predicate Numbered(l: Ledger, r: nat, id: HandleId) {
    r < |l.accepted| && 1 <= id <= |l.accepted[r]|
  }

  ghost predicate IsLive(handles: set<Handle>, l: Ledger, h: Handle, r: nat, id: HandleId) {
    h in handles && h.binding in l.current && l.current[h.binding] == r && h.id == id
  }

  /** The handle is in the table. */
  ghost predicate Live(handles: set<Handle>, l: Ledger, r: nat, id: HandleId) {
    exists h :: IsLive(handles, l, h, r, id)
  }

  predicate Settles(c: Call, r: nat, id: HandleId) {
    !c.compensating && !c.reply.Failed? && c.registration == r && c.id == id
  }

  /** The handle was successfully released. */
  ghost predicate Settled(log: seq<Call>, r: nat, id: HandleId) {
    exists k :: 0 <= k < |log| && Settles(log[k], r, id)
  }

  /** Bindings have ids of their own, and each current registration is one of its own. */
  ghost predicate BindingsDistinct(modules: Modules, l: Ledger) {
    && (forall p, q :: p in modules && q in modules && modules[p].id == modules[q].id ==> p == q)
    && (forall p :: p in modules ==> modules[p].id in l.current)
    && (forall b :: b in l.current ==> b in BindingIds(modules) && l.current[b] < |l.accepted|)
    && (forall a, b :: a in l.current && b in l.current && l.current[a] == l.current[b] ==> a == b)
  }

  /** Accepted ids are 1, 2, 3, ... and the next one is known. */
  ghost predicate NumberedInOrder(modules: Modules, l: Ledger) {
    && (forall r :: 0 <= r < |l.accepted| ==> Consecutive(l.accepted[r], 0) && |l.accepted[r]| <= U32_MAX)
    && (forall p :: p in modules ==> ExpectsNext(modules[p], l))
  }

  ghost predicate ExpectsNext(b: Binding, l: Ledger) {
    b.id in l.current && l.current[b.id] < |l.accepted| && b.nextHandle == NextHandle(|l.accepted[l.current[b.id]]|)
  }

  ghost predicate HandlesAccepted(handles: set<Handle>, l: Ledger) {
    forall h :: h in handles ==>
      h.binding in l.current && Numbered(l, l.current[h.binding], h.id) && l.accepted[l.current[h.binding]][h.id - 1].0 == h.typeId
  }

  /** Of the accepted handles each is in the table, out for release or released, and only one of these. */
  ghost predicate Conserved(handles: set<Handle>, l: Ledger) {
    && (forall r: nat, id: HandleId :: Numbered(l, r, id) ==>
          (Live(handles, l, r, id) <==> !Settled(l.log, r, id) && (r, id) !in l.out))
    && (forall r: nat, id: HandleId :: Settled(l.log, r, id) ==> Numbered(l, r, id) && (r, id) !in l.out)
    && (forall r: nat, id: HandleId :: (r, id) in l.out ==> Numbered(l, r, id))
  }

  /** The handle was accepted, and there is no trace of it any more. */
  ghost predicate Lost(handles: set<Handle>, l: Ledger, r: nat, id: HandleId) {
    Numbered(l, r, id) && !Live(handles, l, r, id) && !Settled(l.log, r, id) && (r, id) !in l.out
  }

  /** No handle of a registration is successfully released twice. */
  ghost predicate ReleasedOnce(log: seq<Call>) {
    forall j, k :: 0 <= j < k < |log| && Settles(log[j], log[j].registration, log[j].id) ==>
      !Settles(log[k], log[j].registration, log[j].id)
  }

  ghost predicate TableValid(modules: Modules, handles: set<Handle>, ids: IdState, l: Ledger) {
    && IdsValid(ids)
    && ids.activeIds == BindingIds(modules)
    && BindingsDistinct(modules, l)
    && NumberedInOrder(modules, l)
    && HandlesAccepted(handles, l)
    && Conserved(handles, l)
    && ReleasedOnce(l.log)
  }

  // ----- steps -----

  /** A call that releases nothing changes nothing. */
  lemma IdleCall(handles: set<Handle>, l: Ledger, c: Call)
    requires Conserved(handles, l) && ReleasedOnce(l.log) && !Settles(c, c.registration, c.id)
    ensures Conserved(handles, l.(log := l.log + [c])) && ReleasedOnce(l.log + [c])
  {
    var l' := l.(log := l.log + [c]);
    forall r: nat, id: HandleId ensures Settled(l'.log, r, id) <==> Settled(l.log, r, id) {
      LogGrows(l.log, c, r, id);
    }
    forall r: nat, id: HandleId ensures Live(handles, l', r, id) <==> Live(handles, l, r, id) {
      SameCurrent(handles, l, l', r, id);
    }
    forall r: nat, id: HandleId ensures Numbered(l', r, id) <==> Numbered(l, r, id) {}
  }

  lemma LogGrows(log: seq<Call>, c: Call, r: nat, id: HandleId)
    ensures Settled(log + [c], r, id) <==> Settled(log, r, id) || Settles(c, r, id)
  {
    var log' := log + [c];
    if Settled(log, r, id) {
      var k :| 0 <= k < |log| && Settles(log[k], r, id);
      assert log'[k] == log[k];
    }
    if Settles(c, r, id) { assert log'[|log|] == c; }
  }

  lemma SameCurrent(handles: set<Handle>, l: Ledger, l': Ledger, r: nat, id: HandleId)
    requires l'.current == l.current
    ensures Live(handles, l', r, id) <==> Live(handles, l, r, id)
  {
    if Live(handles, l, r, id) {
      var h :| IsLive(handles, l, h, r, id);
      assert IsLive(handles, l', h, r, id);
    }
    if Live(handles, l', r, id) {
      var h :| IsLive(handles, l', h, r, id);
      assert IsLive(handles, l, h, r, id);
    }
  }

  /** Only one table entry stands for a handle of a registration. */
  lemma LiveIsUnique(handles: set<Handle>, modules: Modules, l: Ledger, h: Handle, h': Handle, r: nat, id: HandleId)
    requires BindingsDistinct(modules, l) && HandlesAccepted(handles, l)
    requires IsLive(handles, l, h, r, id) && IsLive(handles, l, h', r, id)
    ensures h == h'
  {}

  /** A successful release moves one handle from the table to the log. */
  lemma ReleasedHandle(modules: Modules, handles: set<Handle>, l: Ledger, h: Handle, c: Call)
    requires BindingsDistinct(modules, l) && HandlesAccepted(handles, l) && Conserved(handles, l) && ReleasedOnce(l.log)
    requires h in handles && !c.compensating && !c.reply.Failed? && c.registration == l.current[h.binding] && c.id == h.id
    ensures Conserved(handles - {h}, l.(log := l.log + [c])) && ReleasedOnce(l.log + [c])
    ensures HandlesAccepted(handles - {h}, l.(log := l.log + [c]))
  {
    var l' := l.(log := l.log + [c]);
    var r0 := c.registration;
    assert IsLive(handles, l, h, r0, h.id);
    assert !Settled(l.log, r0, h.id) by { assert Numbered(l, r0, h.id); }
    forall r: nat, id: HandleId ensures Settled(l'.log, r, id) <==> Settled(l.log, r, id) || (r == r0 && id == h.id) {
      LogGrows(l.log, c, r, id);
    }
    forall r: nat, id: HandleId ensures Live(handles - {h}, l', r, id) <==> Live(handles, l, r, id) && !(r == r0 && id == h.id) {
      LiveShrinks(modules, handles, l, h, l', r, id);
    }
    forall r: nat, id: HandleId ensures Numbered(l', r, id) <==> Numbered(l, r, id) {}
    ReleasedOnceGrows(l.log, c);
  }

  lemma ReleasedOnceGrows(log: seq<Call>, c: Call)
    requires ReleasedOnce(log) && (Settles(c, c.registration, c.id) ==> !Settled(log, c.registration, c.id))
    ensures ReleasedOnce(log + [c])
  {}

  lemma LiveShrinks(modules: Modules, handles: set<Handle>, l: Ledger, h: Handle, l': Ledger, r: nat, id: HandleId)
    requires BindingsDistinct(modules, l) && HandlesAccepted(handles, l) && h in handles && l'.current == l.current
    ensures Live(handles - {h}, l', r, id) <==> Live(handles, l, r, id) && !(r == l.current[h.binding] && id == h.id)
  {
    if Live(handles - {h}, l', r, id) {
      var g :| IsLive(handles - {h}, l', g, r, id);
      assert IsLive(handles, l, g, r, id);
      if r == l.current[h.binding] && id == h.id {
        LiveIsUnique(handles, modules, l, g, h, r, id);
      }
    }
    if Live(handles, l, r, id) && !(r == l.current[h.binding] && id == h.id) {
      var g :| IsLive(handles, l, g, r, id);
      assert IsLive(handles - {h}, l', g, r, id);
    }
  }

  // ----- accepting a batch -----

  function BatchHandles(b: BindingId, batch: Batch): set<Handle> {
    set i | 0 <= i < |batch| :: Handle(b, batch[i].0, batch[i].1)
  }

  /** The batch continues the numbering after `n`, within 32 bits, with types of the proxy. */
  ghost predicate Acceptable(batch: Batch, n: nat, proxy: string) {
    forall i :: 0 <= i < |batch| ==> batch[i].1 == n + 1 + i && n + 1 + i <= U32_MAX && BelongsToProxy(batch[i].0, proxy)
  }

  ghost function WithBatch(l: Ledger, r: nat, batch: Batch): Ledger
    requires r < |l.accepted|
  {
    l.(accepted := l.accepted[r := l.accepted[r] + batch])
  }

  lemma AcceptedLive(handles: set<Handle>, l: Ledger, b: BindingId, batch: Batch, l': Ledger, r: nat, id: HandleId)
    requires b in l.current && l.current[b] < |l.accepted| && l'.current == l.current
    requires Consecutive(batch, |l.accepted[l.current[b]]|)
    ensures var n := |l.accepted[l.current[b]]|;
      Live(handles + BatchHandles(b, batch), l', r, id) <==> Live(handles, l, r, id) || (r == l.current[b] && n < id <= n + |batch|)
  {
    var n := |l.accepted[l.current[b]]|;
    var all := handles + BatchHandles(b, batch);
    if Live(all, l', r, id) {
      var h :| IsLive(all, l', h, r, id);
      if h in handles { assert IsLive(handles, l, h, r, id); }
    }
    if Live(handles, l, r, id) {
      var h :| IsLive(handles, l, h, r, id);
      assert IsLive(all, l', h, r, id);
    }
    if r == l.current[b] && n < id <= n + |batch| {
      var i := id - n - 1;
      assert IsLive(all, l', Handle(b, batch[i].0, batch[i].1), r, id);
    }
  }

  lemma AcceptedNumbered(l: Ledger, r0: nat, batch: Batch, r: nat, id: HandleId)
    requires r0 < |l.accepted|
    ensures var n := |l.accepted[r0]|;
      Numbered(WithBatch(l, r0, batch), r, id) <==> Numbered(l, r, id) || (r == r0 && n < id <= n + |batch|)
  {}

  lemma AcceptedConserved(modules: Modules, handles: set<Handle>, l: Ledger, b: BindingId, batch: Batch)
    requires BindingsDistinct(modules, l) && Conserved(handles, l) && b in l.current
    requires Consecutive(batch, |l.accepted[l.current[b]]|)
    ensures Conserved(handles + BatchHandles(b, batch), WithBatch(l, l.current[b], batch))
  {
    hide BatchHandles, Consecutive, Live, Numbered;
    var l' := WithBatch(l, l.current[b], batch);
    var n := |l.accepted[l.current[b]]|;
    forall r: nat, id: HandleId | Numbered(l', r, id)
      ensures Live(handles + BatchHandles(b, batch), l', r, id) <==> !Settled(l'.log, r, id) && (r, id) !in l'.out
    {
      AcceptedLive(handles, l, b, batch, l', r, id);
      AcceptedNumbered(l, l.current[b], batch, r, id);
      if r == l.current[b] && n < id { assert !Numbered(l, r, id) by { BeyondIsNew(l, r, id); } }
    }
    forall r: nat, id: HandleId | Settled(l'.log, r, id) || (r, id) in l'.out ensures Numbered(l', r, id) {
      AcceptedNumbered(l, l.current[b], batch, r, id);
    }
  }

  lemma BeyondIsNew(l: Ledger, r: nat, id: HandleId)
    requires r < |l.accepted| && id > |l.accepted[r]|
    ensures !Numbered(l, r, id)
  {}

  lemma AcceptedHandles(handles: set<Handle>, l: Ledger, b: BindingId, batch: Batch)
    requires HandlesAccepted(handles, l) && b in l.current && l.current[b] < |l.accepted|
    requires Consecutive(batch, |l.accepted[l.current[b]]|)
    ensures HandlesAccepted(handles + BatchHandles(b, batch), WithBatch(l, l.current[b], batch))
  {}

  ghost function Expecting(modules: Modules, proxy: string, n: nat): Modules
    requires proxy in modules
  {
    modules[proxy := modules[proxy].(nextHandle := NextHandle(n))]
  }

  lemma AcceptedDistinct(modules: Modules, l: Ledger, proxy: string, n: nat, batch: Batch)
    requires BindingsDistinct(modules, l) && proxy in modules && modules[proxy].id in l.current
    ensures BindingIds(Expecting(modules, proxy, n)) == BindingIds(modules)
    ensures BindingsDistinct(Expecting(modules, proxy, n), WithBatch(l, l.current[modules[proxy].id], batch))
  {
    hide BindingIds;
    SameIds(modules, Expecting(modules, proxy, n));
  }

  lemma AcceptedNumbering(modules: Modules, l: Ledger, proxy: string, batch: Batch)
    requires BindingsDistinct(modules, l) && NumberedInOrder(modules, l) && proxy in modules
    requires Acceptable(batch, |l.accepted[l.current[modules[proxy].id]]|, proxy)
    ensures var r := l.current[modules[proxy].id]; var n := |l.accepted[r]|;
      NumberedInOrder(Expecting(modules, proxy, n + |batch|), WithBatch(l, r, batch))
  {
    hide BindingIds;
    var r := l.current[modules[proxy].id];
    var n := |l.accepted[r]|;
    var modules' := Expecting(modules, proxy, n + |batch|);
    var l' := WithBatch(l, r, batch);
    BatchExtends(l.accepted[r], batch, proxy);
    forall p | p in modules' ensures ExpectsNext(modules'[p], l') {
      assert ExpectsNext(modules[p], l);
      if p != proxy { assert l.current[modules[p].id] != r; }
    }
  }

  lemma BatchExtends(acc: Batch, batch: Batch, proxy: string)
    requires Consecutive(acc, 0) && |acc| <= U32_MAX && Acceptable(batch, |acc|, proxy)
    ensures Consecutive(acc + batch, 0) && |acc + batch| <= U32_MAX
  {
    if batch != [] {
      var i := |batch| - 1;
      assert |acc| + 1 + i <= U32_MAX by { assert batch[i].1 == |acc| + 1 + i; }
    }
  }

  /** Changing what bindings expect next, or whether they are attached, keeps the ids. */
  lemma SameIds(modules: Modules, modules': Modules)
    requires modules'.Keys == modules.Keys && forall p :: p in modules ==> modules'[p].id == modules[p].id
    ensures BindingIds(modules') == BindingIds(modules)
  {}

  lemma BatchAccepted(modules: Modules, handles: set<Handle>, ids: IdState, l: Ledger, proxy: string, batch: Batch)
    requires TableValid(modules, handles, ids, l) && proxy in modules
    requires modules[proxy].id in l.current && l.current[modules[proxy].id] < |l.accepted|
    requires Acceptable(batch, |l.accepted[l.current[modules[proxy].id]]|, proxy)
    ensures var b := modules[proxy].id; var r := l.current[b]; var n := |l.accepted[r]|;
      TableValid(Expecting(modules, proxy, n + |batch|), handles + BatchHandles(b, batch), ids, WithBatch(l, r, batch))
  {
    hide IdsValid, BindingsDistinct, NumberedInOrder, HandlesAccepted, Conserved, ReleasedOnce, BatchHandles, BindingIds;
    var b := modules[proxy].id;
    AcceptableIsConsecutive(batch, |l.accepted[l.current[b]]|, proxy);
    AcceptedDistinct(modules, l, proxy, |l.accepted[l.current[b]]| + |batch|, batch);
    AcceptedNumbering(modules, l, proxy, batch);
    AcceptedHandles(handles, l, b, batch);
    AcceptedConserved(modules, handles, l, b, batch);
  }

  lemma AcceptableIsConsecutive(batch: Batch, n: nat, proxy: string)
    requires Acceptable(batch, n, proxy)
    ensures Consecutive(batch, n)
  {}

  // ----- registering and removing bindings -----

  ghost function WithRegistration(l: Ledger, b: BindingId): Ledger {
    l.(current := l.current[b := |l.accepted|], accepted := l.accepted + [[]])
  }

  lemma BindingRegistered(modules: Modules, handles: set<Handle>, ids: IdState, l: Ledger, proxy: string, b: BindingId, ids': IdState)
    requires TableValid(modules, handles, ids, l) && proxy !in modules && b !in ids.activeIds
    requires IdsValid(ids') && ids'.activeIds == ids.activeIds + {b}
    ensures TableValid(modules[proxy := Binding(b, Some(1), true)], handles, ids', WithRegistration(l, b))
  {
    hide IdsValid, BindingsDistinct, NumberedInOrder, HandlesAccepted, Conserved, ReleasedOnce, BindingIds;
    NewIsNotCurrent(modules, l, b);
    RegisteredIds(modules, proxy, b);
    RegisteredDistinct(modules, l, proxy, b);
    RegisteredNumbers(modules, l, proxy, b);
    RegisteredHandles(handles, l, b);
    RegisteredConserved(modules, handles, l, b);
  }

  lemma NewIsNotCurrent(modules: Modules, l: Ledger, b: BindingId)
    requires BindingsDistinct(modules, l) && b !in BindingIds(modules)
    ensures b !in l.current
  {}

  lemma RegisteredHandles(handles: set<Handle>, l: Ledger, b: BindingId)
    requires HandlesAccepted(handles, l) && b !in l.current
    ensures HandlesAccepted(handles, WithRegistration(l, b))
  {}

  lemma RegisteredIds(modules: Modules, proxy: string, b: BindingId)
    requires proxy !in modules
    ensures BindingIds(modules[proxy := Binding(b, Some(1), true)]) == BindingIds(modules) + {b}
  {
    var modules' := modules[proxy := Binding(b, Some(1), true)];
    forall x | x in BindingIds(modules) + {b} ensures x in BindingIds(modules') {
      if x == b {
        assert proxy in modules' && modules'[proxy].id == b;
      } else {
        var p :| p in modules && modules[p].id == x;
        assert p in modules' && modules'[p].id == x;
      }
    }
  }

  lemma RegisteredDistinct(modules: Modules, l: Ledger, proxy: string, b: BindingId)
    requires BindingsDistinct(modules, l) && proxy !in modules && b !in BindingIds(modules)
    ensures BindingsDistinct(modules[proxy := Binding(b, Some(1), true)], WithRegistration(l, b))
  {
    RegisteredIds(modules, proxy, b);
    forall p | p in modules ensures modules[p].id != b {
      assert modules[p].id in BindingIds(modules);
    }
  }

  lemma RegisteredNumbers(modules: Modules, l: Ledger, proxy: string, b: BindingId)
    requires BindingsDistinct(modules, l) && NumberedInOrder(modules, l) && proxy !in modules && b !in l.current
    ensures NumberedInOrder(modules[proxy := Binding(b, Some(1), true)], WithRegistration(l, b))
  {}

  lemma RegisteredConserved(modules: Modules, handles: set<Handle>, l: Ledger, b: BindingId)
    requires BindingsDistinct(modules, l) && HandlesAccepted(handles, l) && Conserved(handles, l) && b !in l.current
    ensures Conserved(handles, WithRegistration(l, b))
  {
    var l' := WithRegistration(l, b);
    forall r: nat, id: HandleId ensures Numbered(l', r, id) <==> Numbered(l, r, id) {}
    forall r: nat, id: HandleId ensures Live(handles, l', r, id) <==> Live(handles, l, r, id) {
      if Live(handles, l, r, id) {
        var h :| IsLive(handles, l, h, r, id);
        assert IsLive(handles, l', h, r, id);
      }
      if Live(handles, l', r, id) {
        var h :| IsLive(handles, l', h, r, id);
        assert IsLive(handles, l, h, r, id);
      }
    }
  }

  ghost function WithoutBinding(l: Ledger, b: BindingId): Ledger {
    l.(current := l.current - {b})
  }

  lemma BindingRemoved(modules: Modules, handles: set<Handle>, ids: IdState, l: Ledger, proxy: string, ids': IdState)
    requires TableValid(modules, handles, ids, l) && proxy in modules
    requires forall h :: h in handles ==> h.binding != modules[proxy].id
    requires IdsValid(ids') && ids'.activeIds == ids.activeIds - {modules[proxy].id}
    ensures TableValid(modules - {proxy}, handles, ids', WithoutBinding(l, modules[proxy].id))
  {
    hide IdsValid, BindingsDistinct, NumberedInOrder, HandlesAccepted, Conserved, ReleasedOnce, BindingIds;
    RemovedIds(modules, l, proxy);
    RemovedDistinct(modules, l, proxy);
    RemovedNumbers(modules, l, proxy);
    RemovedHandles(handles, l, modules[proxy].id);
    RemovedConserved(handles, l, modules[proxy].id);
  }

  lemma RemovedIds(modules: Modules, l: Ledger, proxy: string)
    requires BindingsDistinct(modules, l) && proxy in modules
    ensures BindingIds(modules - {proxy}) == BindingIds(modules) - {modules[proxy].id}
  {
    var b := modules[proxy].id;
    var modules' := modules - {proxy};
    forall x | x in BindingIds(modules) && x != b ensures x in BindingIds(modules') {
      var p :| p in modules && modules[p].id == x;
      assert p in modules';
    }
    forall x | x in BindingIds(modules') ensures x in BindingIds(modules) && x != b {
      var p :| p in modules' && modules'[p].id == x;
    }
  }

  lemma RemovedDistinct(modules: Modules, l: Ledger, proxy: string)
    requires BindingsDistinct(modules, l) && proxy in modules
    ensures BindingsDistinct(modules - {proxy}, WithoutBinding(l, modules[proxy].id))
  {
    RemovedIds(modules, l, proxy);
    forall p | p in modules && p != proxy ensures modules[p].id != modules[proxy].id {}
  }

  lemma RemovedNumbers(modules: Modules, l: Ledger, proxy: string)
    requires BindingsDistinct(modules, l) && NumberedInOrder(modules, l) && proxy in modules
    ensures NumberedInOrder(modules - {proxy}, WithoutBinding(l, modules[proxy].id))
  {
    hide BindingIds;
    var modules' := modules - {proxy};
    var l' := WithoutBinding(l, modules[proxy].id);
    forall p | p in modules' ensures ExpectsNext(modules'[p], l') {
      assert ExpectsNext(modules[p], l);
      assert modules[p].id != modules[proxy].id;
    }
  }

  lemma RemovedConserved(handles: set<Handle>, l: Ledger, b: BindingId)
    requires Conserved(handles, l) && forall h :: h in handles ==> h.binding != b
    ensures Conserved(handles, WithoutBinding(l, b))
  {
    var l' := WithoutBinding(l, b);
    forall r: nat, id: HandleId ensures Numbered(l', r, id) <==> Numbered(l, r, id) {}
    forall r: nat, id: HandleId ensures Live(handles, l', r, id) <==> Live(handles, l, r, id) {
      if Live(handles, l, r, id) {
        var h :| IsLive(handles, l, h, r, id);
        assert IsLive(handles, l', h, r, id);
      }
      if Live(handles, l', r, id) {
        var h :| IsLive(handles, l', h, r, id);
        assert IsLive(handles, l, h, r, id);
      }
    }
  }

  lemma RemovedHandles(handles: set<Handle>, l: Ledger, b: BindingId)
    requires HandlesAccepted(handles, l) && forall h :: h in handles ==> h.binding != b
    ensures HandlesAccepted(handles, WithoutBinding(l, b))
  {}
}
