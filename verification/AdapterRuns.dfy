/** Whole runs of the adapter bindings, with releases left open while other calls are made. */
module AdapterRuns {
  import opened Machine
  import HeapObjects
  import opened IdManager
  import opened AdapterLedger
  import opened AdapterFlights
  import opened AdapterBindings

  datatype BindingOp =
    | RegisterProxy(proxy: string)
    | Unregister(proxy: string)
    | Attach(b: BindingId, batch: Batch)
    | Release(h: Handle)
    | BeginRelease(h: Handle)
    | EndRelease(which: nat)
    | TakeOut(proxy: string)
    | PutBack(proxy: string)
    | CloseAll

  /** The releases left open, with the registrations their handles come from. */
  ghost predicate AllIssued(l: Ledger, flights: seq<Flight>, origins: seq<nat>) {
    && |flights| == |origins|
    && (forall k :: 0 <= k < |flights| ==> Issued(l, flights[k], origins[k]))
    && (forall j, k :: 0 <= j < k < |flights| && origins[j] == origins[k] ==> flights[j].handle.id != flights[k].handle.id)
  }

  /** The second ledger is a later one, with the same handles out for release. */
  ghost predicate SameOut(l: Ledger, l': Ledger) {
    && l'.out == l.out && |l.accepted| <= |l'.accepted|
    && forall r :: 0 <= r < |l.accepted| ==> l.accepted[r] <= l'.accepted[r]
  }

  lemma IssuedLater(l: Ledger, l': Ledger, flights: seq<Flight>, origins: seq<nat>)
    requires AllIssued(l, flights, origins) && SameOut(l, l')
    ensures AllIssued(l', flights, origins)
  {}

  lemma IssuedOneMore(l: Ledger, f: Flight, r: nat, flights: seq<Flight>, origins: seq<nat>)
    requires AllIssued(l, flights, origins) && (r, f.handle.id) !in l.out && Issued(Departed(l, r, f.handle.id), f, r)
    ensures AllIssued(Departed(l, r, f.handle.id), flights + [f], origins + [r])
  {
    forall k | 0 <= k < |flights| ensures origins[k] == r ==> flights[k].handle.id != f.handle.id {
      assert Issued(l, flights[k], origins[k]);
    }
  }

  lemma IssuedOneLess(l: Ledger, k: nat, reply: Reply, flights: seq<Flight>, origins: seq<nat>)
    requires AllIssued(l, flights, origins) && k < |flights|
    ensures AllIssued(Landed(l, flights[k], origins[k], reply), flights[..k] + flights[k + 1..], origins[..k] + origins[k + 1..])
  {
    var l' := Landed(l, flights[k], origins[k], reply);
    forall j | 0 <= j < |flights| && j != k ensures Issued(l', flights[j], origins[j]) {
      assert Issued(l, flights[j], origins[j]);
    }
  }

  /** Why a run stopped: at which call, and the release that was being finished there. */
  datatype Stop = Stop(at: nat, flight: Flight, origin: nat, reply: Reply)

  /** Over every run, whatever adapters answer and however releases are left open: each registration
      accepts the ids 1, 2, 3, ...; an accepted handle is in the table, out for release or released,
      and only one of these; and none is released twice. This holds up to the first release that is
      finished without its adapter having been there, or whose refused handle goes back to a
      binding id that is no longer its registration's. That one loses its handle. */
  method RunBindings(ops: seq<BindingOp>) returns (t: Bindings, stop: Option<Stop>)
    ensures stop.None? ==> t.Valid()
    ensures stop.None? ==> forall r :: 0 <= r < |t.ledger.accepted| ==> Consecutive(t.ledger.accepted[r], 0)
    ensures stop.None? ==> InOnePlace(t.handles, t.ledger) && ReleasedOnce(t.ledger.log)
    ensures stop.Some? ==> !t.Valid() && stop.value.at < |ops| && ops[stop.value.at].EndRelease?
    ensures stop.Some? ==> !LandsWell(t.ledger.current, stop.value.flight, stop.value.origin, stop.value.reply)
    ensures stop.Some? ==> Lost(t.handles, t.ledger, stop.value.origin, stop.value.flight.handle.id)
  {
    hide TableValid, AllIssued, Issued, Lost, InOnePlace;
    t := new Bindings();
    var flights: seq<Flight>, origins: seq<nat> := [], [];
    // The registrations, numbered as they are made.
    var current: map<BindingId, nat>, made := map[], 0;
    NoneIssued(t.ledger);
    for i := 0 to |ops|
      invariant t.Valid() && fresh(t) && fresh(t.bindingIds)
      invariant AllIssued(t.ledger, flights, origins) && |flights| == |origins|
      invariant t.ledger.current == current && |t.ledger.accepted| == made
    {
      ghost var before := t.ledger;
      match ops[i] {
        case RegisterProxy(proxy) =>
          var registered := t.RegisterModule(proxy);
          if registered.Ok? {
            current, made := current[registered.value := made], made + 1;
          }
        case Unregister(proxy) =>
          var bound := proxy in t.modules;
          var b := if bound then t.modules[proxy].id else 0;
          var removed := t.RemoveBinding(proxy);
          if bound && removed.Ok? {
            current := current - {b};
          }
        case Attach(b, batch) => var accepted := t.RegisterHandles(b, batch);
        case Release(h) => var reply := t.ReleaseHandle(h);
        case TakeOut(proxy) => var taken := t.TakeModule(proxy);
        case PutBack(proxy) => var restored := t.RestoreModule(proxy);
        case CloseAll => var released, already, failures := t.Close();
        case BeginRelease(h) =>
          var flight := t.TakeForRelease(h);
          if flight.Some? {
            IssuedOneMore(before, flight.value, current[h.binding], flights, origins);
            flights, origins := flights + [flight.value], origins + [current[h.binding]];
          }
          continue;
        case EndRelease(which) =>
          if which < |flights| {
            var f, origin := flights[which], origins[which];
            IssuedAt(before, flights, origins, which);
            var reply := t.FinishRelease(f, origin);
            if !LandsWell(current, f, origin, reply) {
              return t, Some(Stop(i, f, origin, reply));
            }
            IssuedOneLess(before, which, reply, flights, origins);
            flights, origins := flights[..which] + flights[which + 1..], origins[..which] + origins[which + 1..];
          }
          continue;
      }
      IssuedLater(before, t.ledger, flights, origins);
    }
    stop := None;
    TableMeans(t.modules, t.handles, t.bindingIds.State(), t.ledger);
  }

  lemma NoneIssued(l: Ledger)
    ensures AllIssued(l, [], [])
  {}

  lemma IssuedAt(l: Ledger, flights: seq<Flight>, origins: seq<nat>, k: nat)
    requires AllIssued(l, flights, origins) && k < |flights|
    ensures Issued(l, flights[k], origins[k])
  {}

  /** Each accepted handle is in the table, out for release or released, and only one of these. */
  ghost predicate InOnePlace(handles: set<Handle>, l: Ledger) {
    forall r: nat, id: HandleId :: Numbered(l, r, id) ==>
      if Settled(l.log, r, id) then !Live(handles, l, r, id) && (r, id) !in l.out
      else Live(handles, l, r, id) <==> (r, id) !in l.out
  }

  lemma TableMeans(modules: Modules, handles: set<Handle>, ids: IdState, l: Ledger)
    requires TableValid(modules, handles, ids, l)
    ensures forall r :: 0 <= r < |l.accepted| ==> Consecutive(l.accepted[r], 0)
    ensures InOnePlace(handles, l) && ReleasedOnce(l.log)
  {}

  // ----- the two ways to lose a handle -----

  const FILE := HeapObjects.OpaqueTypeId("files", "File")

  lemma BatchOfOne(b: BindingId, typeId: HeapObjects.OpaqueTypeId, id: HandleId)
    ensures BatchHandles(b, [(typeId, id)]) == {Handle(b, typeId, id)}
  {
    assert [(typeId, id)][0] == (typeId, id);
    assert Handle(b, [(typeId, id)][0].0, [(typeId, id)][0].1) in BatchHandles(b, [(typeId, id)]);
  }

  /** A table with one proxy and one handle. */
  method OneHandle() returns (t: Bindings, h: Handle)
    ensures fresh(t) && fresh(t.bindingIds) && t.Valid() && t.bindingIds.State() == Allocated(IdState(0, Some(0), [], {})).0
    ensures h == Handle(0, FILE, 1) && t.handles == {h}
    ensures t.modules.Keys == {"files"} && t.modules["files"].id == 0 && t.modules["files"].attached
    ensures t.ledger == Ledger(map[0 := 0], [[(FILE, 1)]], [], {})
  {
    hide TableValid;
    t := new Bindings();
    assert 0 !in t.bindingIds.State().activeIds;
    var b := t.RegisterModule("files");
    assert TrimEnd("files", ".gfp") == "files";
    BatchOfOne(0, FILE, 1);
    assert t.ledger == Ledger(map[0 := 0], [[]], [], {});
    var accepted := t.RegisterHandles(0, [(FILE, 1)]);
    assert [] + [(FILE, 1)] == [(FILE, 1)];
    h := Handle(0, FILE, 1);
  }

  /** A handle released while its adapter is in use by someone else: the adapter is never asked, and
      yet the handle is gone. */
  method ReleasedWhileAway() returns (t: Bindings, h: Handle)
    ensures t.handles == {} && t.ledger.log == [] && Lost(t.handles, t.ledger, 0, h.id) && !t.Valid()
  {
    hide TableValid, Lost;
    t, h := OneHandle();
    var taken := t.TakeModule("files");
    var flight := t.TakeForRelease(h);
    var reply := t.FinishRelease(flight.value, 0);
  }

  /** A handle whose proxy is removed while the release is open, and whose binding id goes to another
      proxy: if the adapter refuses, the handle turns up as one of that other proxy's. */
  method RestoredToAnother() returns (t: Bindings, h: Handle, reply: Reply)
    ensures t.modules.Keys == {"sockets"} && t.modules["sockets"].id == h.binding && t.ledger.accepted == [[(FILE, 1)], []]
    ensures reply.Failed? ==> t.handles == {h} && Lost(t.handles, t.ledger, 0, h.id) && !t.Valid()
  {
    hide TableValid, Lost;
    t, h := OneHandle();
    ghost var ids := t.bindingIds.State();
    var flight := t.TakeForRelease(h);
    var removed := t.RemoveBinding("files");
    assert t.modules == map[];
    FreedIsNext(ids, 0);
    var b := t.RegisterModule("sockets");
    assert t.modules == map["sockets" := Binding(0, Some(1), true)];
    reply := t.FinishRelease(flight.value, 0);
  }
}
