/** Releasing a handle in two steps, with other calls in between: it is taken out of the table, and
    later either released for good or put back. */
module AdapterFlights {
  import opened Machine
  import opened IdManager
  import opened AdapterLedger

  /** What the first step hands out: the handle, the proxy it was found under, and whether the
      adapter module was there to be taken along. */
  datatype Flight = Flight(proxy: string, handle: Handle, carried: bool)

  /** The binding id still stands for registration `r`. */
  predicate Current(current: map<BindingId, nat>, b: BindingId, r: nat) {
    b in current && current[b] == r
  }

  /** The flight stands for a handle of registration `r` that is out for release. */
  ghost predicate Issued(l: Ledger, f: Flight, r: nat) {
    && (r, f.handle.id) in l.out
    && Numbered(l, r, f.handle.id)
    && l.accepted[r][f.handle.id - 1].0 == f.handle.typeId
  }

  /** What the second step leaves consistent: the adapter was asked, and a handle it refused to
      release goes back to the registration it came from. */
  predicate LandsWell(current: map<BindingId, nat>, f: Flight, r: nat, reply: Reply) {
    f.carried && (reply.Failed? ==> Current(current, f.handle.binding, r))
  }

  ghost function Departed(l: Ledger, r: nat, id: HandleId): Ledger {
    l.(out := l.out + {(r, id)})
  }

  ghost function Landed(l: Ledger, f: Flight, r: nat, reply: Reply): Ledger {
    l.(out := l.out - {(r, f.handle.id)},
       log := if f.carried then l.log + [Call(r, f.handle.typeId, f.handle.id, reply, false)] else l.log)
  }

  function HandlesAfter(handles: set<Handle>, f: Flight, reply: Reply): set<Handle> {
    if reply.Failed? then handles + {f.handle} else handles
  }

  /** Taking a handle out of the table loses nothing: it is then out for release. */
  lemma HandleDeparts(modules: Modules, handles: set<Handle>, ids: IdState, l: Ledger, h: Handle)
    requires TableValid(modules, handles, ids, l) && h in handles && h.binding in l.current
    ensures (l.current[h.binding], h.id) !in l.out
    ensures Numbered(l, l.current[h.binding], h.id) && l.accepted[l.current[h.binding]][h.id - 1].0 == h.typeId
    ensures TableValid(modules, handles - {h}, ids, Departed(l, l.current[h.binding], h.id))
  {
    hide IdsValid, BindingIds, NumberedInOrder, ReleasedOnce;
    var r0 := l.current[h.binding];
    var l' := Departed(l, r0, h.id);
    assert IsLive(handles, l, h, r0, h.id);
    assert Numbered(l, r0, h.id);
    DepartedConserved(modules, handles, l, h);
    DepartedParts(modules, handles, l, h);
  }

  lemma DepartedParts(modules: Modules, handles: set<Handle>, l: Ledger, h: Handle)
    requires BindingsDistinct(modules, l) && NumberedInOrder(modules, l) && HandlesAccepted(handles, l)
    requires h in handles && h.binding in l.current
    ensures var l' := Departed(l, l.current[h.binding], h.id);
      BindingsDistinct(modules, l') && NumberedInOrder(modules, l') && HandlesAccepted(handles - {h}, l')
  {
    hide BindingIds;
    var l' := Departed(l, l.current[h.binding], h.id);
    forall p | p in modules ensures ExpectsNext(modules[p], l') { assert ExpectsNext(modules[p], l); }
  }

  lemma DepartedConserved(modules: Modules, handles: set<Handle>, l: Ledger, h: Handle)
    requires BindingsDistinct(modules, l) && HandlesAccepted(handles, l) && Conserved(handles, l) && h in handles
    ensures Conserved(handles - {h}, Departed(l, l.current[h.binding], h.id))
  {
    var r0 := l.current[h.binding];
    var l' := Departed(l, r0, h.id);
    assert IsLive(handles, l, h, r0, h.id);
    forall r: nat, id: HandleId ensures Live(handles - {h}, l', r, id) <==> Live(handles, l, r, id) && !(r == r0 && id == h.id) {
      LiveShrinks(modules, handles, l, h, l', r, id);
    }
    forall r: nat, id: HandleId ensures Numbered(l', r, id) <==> Numbered(l, r, id) {}
  }

  /** The second step keeps the table consistent exactly if the flight lands well; otherwise the handle is lost. */
  lemma FlightLands(modules: Modules, handles: set<Handle>, ids: IdState, l: Ledger, f: Flight, r: nat, reply: Reply)
    requires TableValid(modules, handles, ids, l) && Issued(l, f, r)
    requires !f.carried ==> reply.AlreadyReleased?
    ensures TableValid(modules, HandlesAfter(handles, f, reply), ids, Landed(l, f, r, reply)) <==> LandsWell(l.current, f, r, reply)
    ensures !LandsWell(l.current, f, r, reply) ==> Lost(HandlesAfter(handles, f, reply), Landed(l, f, r, reply), r, f.handle.id)
  {
    hide IdsValid, BindingIds, NumberedInOrder, ReleasedOnce, BindingsDistinct, HandlesAccepted, Conserved;
    LandedLive(handles, l, f, r, reply);
    LandedLog(l, f, r, reply);
    if LandsWell(l.current, f, r, reply) {
      LandedParts(modules, handles, l, f, r, reply);
      LandedConserved(handles, l, f, r, reply);
    } else {
      LandedLost(handles, l, f, r, reply);
      LostIsNotConserved(HandlesAfter(handles, f, reply), Landed(l, f, r, reply), r, f.handle.id);
    }
  }

  lemma LostIsNotConserved(handles: set<Handle>, l: Ledger, r: nat, id: HandleId)
    requires Lost(handles, l, r, id)
    ensures !Conserved(handles, l)
  {}

  /** What is in the table afterwards: what was, and the handle if it goes back where it came from. */
  lemma LandedLive(handles: set<Handle>, l: Ledger, f: Flight, r: nat, reply: Reply)
    ensures forall r', id :: Live(HandlesAfter(handles, f, reply), Landed(l, f, r, reply), r', id) <==>
      Live(handles, l, r', id) || (reply.Failed? && Current(l.current, f.handle.binding, r') && id == f.handle.id)
  {
    var handles' := HandlesAfter(handles, f, reply);
    var l' := Landed(l, f, r, reply);
    forall r', id ensures Live(handles', l', r', id) <==>
      Live(handles, l, r', id) || (reply.Failed? && Current(l.current, f.handle.binding, r') && id == f.handle.id)
    {
      if Live(handles', l', r', id) {
        var h :| IsLive(handles', l', h, r', id);
        if h in handles { assert IsLive(handles, l, h, r', id); }
      }
      if Live(handles, l, r', id) {
        var h :| IsLive(handles, l, h, r', id);
        assert IsLive(handles', l', h, r', id);
      }
      if reply.Failed? && Current(l.current, f.handle.binding, r') && id == f.handle.id {
        assert IsLive(handles', l', f.handle, r', id);
      }
    }
  }

  lemma LandedLog(l: Ledger, f: Flight, r: nat, reply: Reply)
    ensures forall r', id :: Settled(Landed(l, f, r, reply).log, r', id) <==>
      Settled(l.log, r', id) || (f.carried && !reply.Failed? && r' == r && id == f.handle.id)
  {
    forall r', id ensures Settled(Landed(l, f, r, reply).log, r', id) <==>
      Settled(l.log, r', id) || (f.carried && !reply.Failed? && r' == r && id == f.handle.id)
    {
      LogGrows(l.log, Call(r, f.handle.typeId, f.handle.id, reply, false), r', id);
    }
  }

  lemma LandedParts(modules: Modules, handles: set<Handle>, l: Ledger, f: Flight, r: nat, reply: Reply)
    requires BindingsDistinct(modules, l) && NumberedInOrder(modules, l) && HandlesAccepted(handles, l)
    requires Conserved(handles, l) && ReleasedOnce(l.log)
    requires Issued(l, f, r) && LandsWell(l.current, f, r, reply)
    ensures var l' := Landed(l, f, r, reply);
      && BindingsDistinct(modules, l') && NumberedInOrder(modules, l')
      && HandlesAccepted(HandlesAfter(handles, f, reply), l') && ReleasedOnce(l'.log)
  {
    hide BindingIds, Live;
    var l' := Landed(l, f, r, reply);
    forall p | p in modules ensures ExpectsNext(modules[p], l') { assert ExpectsNext(modules[p], l); }
    assert !Settled(l.log, r, f.handle.id);
    ReleasedOnceGrows(l.log, Call(r, f.handle.typeId, f.handle.id, reply, false));
  }

  lemma LandedConserved(handles: set<Handle>, l: Ledger, f: Flight, r: nat, reply: Reply)
    requires Conserved(handles, l) && Issued(l, f, r) && LandsWell(l.current, f, r, reply)
    ensures Conserved(HandlesAfter(handles, f, reply), Landed(l, f, r, reply))
  {
    LandedLive(handles, l, f, r, reply);
    LandedLog(l, f, r, reply);
    hide Live, Settled, HandlesAfter;
    forall r': nat, id: HandleId ensures Numbered(Landed(l, f, r, reply), r', id) <==> Numbered(l, r', id) {}
  }

  lemma LandedLost(handles: set<Handle>, l: Ledger, f: Flight, r: nat, reply: Reply)
    requires Conserved(handles, l) && Issued(l, f, r) && !LandsWell(l.current, f, r, reply)
    requires !f.carried ==> reply.AlreadyReleased?
    ensures Lost(HandlesAfter(handles, f, reply), Landed(l, f, r, reply), r, f.handle.id)
  {
    LandedLive(handles, l, f, r, reply);
    LandedLog(l, f, r, reply);
    hide Live, Settled, HandlesAfter;
  }
}
