/** Blocked threads and their timers on a virtual clock. */
module TimerQueue {
  import opened Machine
  import opened IdManager

  type ThreadId = nat

  datatype TimerEntry = TimerEntry(deadline: nat, timerId: nat, thread: ThreadId)

  datatype BlockedState = BlockedState(blocked: set<ThreadId>, clock: nat, ids: IdState, timers: set<TimerEntry>, active: map<ThreadId, TimerEntry>)

  /** The order of the timer set: by deadline, then timer id, then thread. */
  predicate Before(a: TimerEntry, b: TimerEntry) {
    || a.deadline < b.deadline
    || (a.deadline == b.deadline && a.timerId < b.timerId)
    || (a.deadline == b.deadline && a.timerId == b.timerId && a.thread < b.thread)
  }

  ghost predicate IsFirst(timers: set<TimerEntry>, t: TimerEntry) {
    t in timers && forall u :: u in timers ==> u == t || Before(t, u)
  }

  lemma {:induction false} FirstExists(timers: set<TimerEntry>)
    requires timers != {}
    ensures exists t :: IsFirst(timers, t)
    decreases timers
  {
    var u :| u in timers;
    var rest := timers - {u};
    if rest == {} {
      assert timers == rest + {u};
      assert IsFirst(timers, u);
    } else {
      FirstExists(rest);
      var t :| IsFirst(rest, t);
      assert forall v :: v in timers ==> v == u || v in rest;
      assert IsFirst(timers, if Before(u, t) then u else t);
    }
  }

  ghost function First(timers: set<TimerEntry>): (t: TimerEntry)
    requires timers != {}
    ensures IsFirst(timers, t)
  {
    FirstExists(timers);
    var t :| IsFirst(timers, t);
    t
  }

  lemma FirstIsUnique(timers: set<TimerEntry>, t: TimerEntry)
    requires IsFirst(timers, t)
    ensures First(timers) == t
  {}

  // ----- the invariant -----

  /** The timer set is exactly the active timers; only blocked threads have one; live timer ids
      differ from each other, and with the `spare` ones are exactly those the id manager has out. */
  ghost predicate TimersBut(s: BlockedState, spare: set<nat>) {
    && s.clock <= U64_MAX
    && IdsValid(s.ids)
    && (forall t :: t in s.timers <==> t.thread in s.active && s.active[t.thread] == t)
    && (forall th :: th in s.active ==> th in s.blocked && s.active[th].thread == th)
    && (forall th :: th in s.active ==> s.active[th].timerId in s.ids.activeIds && s.active[th].timerId !in spare)
    && (forall a, b :: a in s.active && b in s.active && s.active[a].timerId == s.active[b].timerId ==> a == b)
    && (forall id :: id in s.ids.activeIds && id !in spare ==> exists th :: th in s.active && s.active[th].timerId == id)
    && spare <= s.ids.activeIds
  }

  ghost predicate TimersValid(s: BlockedState) {
    TimersBut(s, {})
  }

  // ----- expiry -----

  /** One timer leaves the timer set; a current one also releases its thread and its id. */
  ghost function Popped(s: BlockedState, t: TimerEntry): BlockedState {
    var s1 := s.(timers := s.timers - {t});
    if t.thread in s.active && s.active[t.thread] == t then
      s1.(active := s.active - {t.thread}, ids := Freed(s.ids, t.timerId), blocked := s.blocked - {t.thread})
    else s1
  }

  ghost function PoppedThreads(s: BlockedState, t: TimerEntry): seq<ThreadId> {
    if t.thread in s.active && s.active[t.thread] == t && t.thread in s.blocked then [t.thread] else []
  }

  ghost predicate Due(s: BlockedState) {
    s.timers != {} && First(s.timers).deadline <= s.clock
  }

  /** Pops due timers, first ones first. */
  ghost function Expire(s: BlockedState): (BlockedState, seq<ThreadId>)
    decreases s.timers
  {
    if !Due(s) then (s, [])
    else
      var t := First(s.timers);
      var (s', woke) := Expire(Popped(s, t));
      (s', PoppedThreads(s, t) + woke)
  }

  ghost function Ticked(s: BlockedState, delta: nat): (BlockedState, seq<ThreadId>) {
    Expire(s.(clock := SatAdd64(s.clock, delta)))
  }

  lemma {:induction false} ExpireTwice(s: BlockedState, c: nat, c': nat)
    requires c <= c'
    ensures var (s1, woke1) := Expire(s.(clock := c));
      var (s2, woke2) := Expire(s1.(clock := c'));
      Expire(s.(clock := c')) == (s2, woke1 + woke2)
    decreases s.timers
  {
    var a, b := s.(clock := c), s.(clock := c');
    if Due(a) {
      var t := First(s.timers);
      var rest := Popped(s, t);
      assert Popped(a, t) == rest.(clock := c) && Popped(b, t) == rest.(clock := c');
      ExpireTwice(rest, c, c');
      var (s1, woke1) := Expire(rest.(clock := c));
      var (s2, woke2) := Expire(s1.(clock := c'));
      assert PoppedThreads(a, t) + (woke1 + woke2) == (PoppedThreads(a, t) + woke1) + woke2;
    } else {
      assert a.(clock := c') == b;
      assert [] + Expire(b).1 == Expire(b).1;
    }
  }

  /** Ticking `a` and then `b` wakes the same threads in the same order, and ends in the same state,
      as one tick of their saturated sum. */
  lemma TickTwice(s: BlockedState, a: nat, b: nat)
    requires s.clock <= U64_MAX && a <= U64_MAX && b <= U64_MAX
    ensures var (s1, woke1) := Ticked(s, a);
      var (s2, woke2) := Ticked(s1, b);
      Ticked(s, SatAdd64(a, b)) == (s2, woke1 + woke2)
  {
    var c := SatAdd64(s.clock, a);
    var c' := SatAdd64(c, b);
    assert c' == SatAdd64(s.clock, SatAdd64(a, b));
    ExpireTwice(s, c, c');
    ExpireKeepsClock(s.(clock := c));
  }

  lemma {:induction false} ExpireKeepsClock(s: BlockedState)
    ensures Expire(s).0.clock == s.clock
    decreases s.timers
  {
    if Due(s) { ExpireKeepsClock(Popped(s, First(s.timers))); }
  }

  // ----- what a tick wakes -----

  ghost predicate Expired(s: BlockedState, th: ThreadId) {
    th in s.active && s.active[th].deadline <= s.clock
  }

  /** Its deadline is earlier, or the same and its timer older. */
  ghost predicate Precedes(s: BlockedState, a: ThreadId, b: ThreadId) {
    && a in s.active && b in s.active
    && var x, y := s.active[a], s.active[b];
      x.deadline < y.deadline || (x.deadline == y.deadline && x.timerId < y.timerId)
  }

  /** `woke` lists exactly the blocked threads whose deadline is reached, in timer order. */
  ghost predicate WokeExactly(s: BlockedState, woke: seq<ThreadId>) {
    && (forall th :: th in woke <==> Expired(s, th))
    && (forall i, j :: 0 <= i < j < |woke| ==> Precedes(s, woke[i], woke[j]))
  }

  /** Waking takes the threads out and leaves everything else. */
  ghost predicate Awakened(s: BlockedState, woke: seq<ThreadId>, s': BlockedState) {
    && s'.clock == s.clock
    && (forall th :: th in s'.blocked <==> th in s.blocked && th !in woke)
    && (forall th :: th in s'.active <==> th in s.active && th !in woke)
    && (forall th :: th in s'.active ==> s'.active[th] == s.active[th] && s'.active[th].deadline > s.clock)
  }

  lemma PoppedKeeps(s: BlockedState)
    requires TimersValid(s) && Due(s)
    ensures var t := First(s.timers);
      && TimersValid(Popped(s, t))
      && PoppedThreads(s, t) == [t.thread]
      && s.active[t.thread] == t
  {
    var t := First(s.timers);
    var s' := Popped(s, t);
    FreedKeeps(s.ids, t.timerId);
    forall id | id in s'.ids.activeIds ensures exists th :: th in s'.active && s'.active[th].timerId == id {
      var th :| th in s.active && s.active[th].timerId == id;
      assert th in s'.active;
    }
  }

  lemma {:induction false} ExpireIsExact(s: BlockedState)
    requires TimersValid(s)
    ensures var (s', woke) := Expire(s);
      TimersValid(s') && WokeExactly(s, woke) && Awakened(s, woke, s')
    decreases s.timers
  {
    if !Due(s) {
      NotDue(s);
    } else {
      var t := First(s.timers);
      PoppedKeeps(s);
      var rest := Popped(s, t);
      ExpireIsExact(rest);
      var (s', woke) := Expire(rest);
      WokeFirst(s, t, woke);
      assert Awakened(s, [t.thread] + woke, s');
    }
  }

  lemma NotDue(s: BlockedState)
    requires TimersValid(s) && !Due(s)
    ensures forall th :: !Expired(s, th)
  {}

  lemma WokeFirst(s: BlockedState, t: TimerEntry, woke: seq<ThreadId>)
    requires TimersValid(s) && Due(s) && t == First(s.timers) && WokeExactly(Popped(s, t), woke)
    ensures WokeExactly(s, [t.thread] + woke)
  {
    hide Precedes, Due;
    var rest := Popped(s, t);
    var all := [t.thread] + woke;
    forall th ensures th in all <==> Expired(s, th) {
      FirstExpires(s, t, th);
    }
    forall i, j | 0 <= i < j < |all| ensures Precedes(s, all[i], all[j]) {
      assert all[j] == woke[j - 1] && woke[j - 1] in woke;
      assert Expired(rest, all[j]);
      if i == 0 {
        FirstPrecedes(s, t, all[j]);
      } else {
        assert Precedes(rest, woke[i - 1], woke[j - 1]);
        RestPrecedes(s, t, woke[i - 1], woke[j - 1]);
      }
    }
  }

  lemma FirstExpires(s: BlockedState, t: TimerEntry, th: ThreadId)
    requires TimersValid(s) && Due(s) && t == First(s.timers)
    ensures Expired(s, th) <==> th == t.thread || Expired(Popped(s, t), th)
  {}

  lemma FirstPrecedes(s: BlockedState, t: TimerEntry, th: ThreadId)
    requires TimersValid(s) && s.timers != {} && t == First(s.timers) && Expired(Popped(s, t), th)
    ensures Precedes(s, t.thread, th)
  {}

  lemma RestPrecedes(s: BlockedState, t: TimerEntry, a: ThreadId, b: ThreadId)
    requires Precedes(Popped(s, t), a, b)
    ensures Precedes(s, a, b)
  {}

  // ----- blocking and unblocking -----

  ghost function Untimed(s: BlockedState, id: ThreadId): BlockedState {
    if id in s.active then
      s.(active := s.active - {id}, timers := s.timers - {s.active[id]}, ids := Freed(s.ids, s.active[id].timerId))
    else s
  }

  ghost function Timed(s: BlockedState, id: ThreadId, timerId: nat, timeout: nat): BlockedState {
    var t := TimerEntry(SatAdd64(s.clock, timeout), timerId, id);
    s.(blocked := s.blocked + {id}, timers := s.timers + {t}, active := s.active[id := t])
  }

  lemma UntimedKeeps(s: BlockedState, spare: set<nat>, id: ThreadId)
    requires TimersBut(s, spare)
    ensures TimersBut(Untimed(s, id), spare)
  {
    if id in s.active {
      var s' := Untimed(s, id);
      FreedKeeps(s.ids, s.active[id].timerId);
      forall x | x in s'.ids.activeIds && x !in spare ensures exists th :: th in s'.active && s'.active[th].timerId == x {
        var th :| th in s.active && s.active[th].timerId == x;
        assert th in s'.active;
      }
    }
  }

  lemma AllocatedSpare(s: BlockedState)
    requires TimersValid(s) && Allocated(s.ids).1.Some?
    ensures TimersBut(s.(ids := Allocated(s.ids).0), {Allocated(s.ids).1.value})
  {
    hide Allocated, IdsValid;
    AllocatedIsNew(s.ids);
    var (ids', id) := Allocated(s.ids);
    var s' := s.(ids := ids');
    forall x | x in ids'.activeIds && x != id.value ensures exists th :: th in s'.active && s'.active[th].timerId == x {
      var th :| th in s.active && s.active[th].timerId == x;
    }
  }

  lemma TimedKeeps(s: BlockedState, id: ThreadId, timerId: nat, timeout: nat)
    requires TimersBut(s, {timerId}) && id !in s.active
    ensures TimersValid(Timed(s, id, timerId, timeout))
  {
    hide IdsValid;
    var s' := Timed(s, id, timerId, timeout);
    forall x | x in s'.ids.activeIds ensures exists th :: th in s'.active && s'.active[th].timerId == x {
      if x == timerId {
        assert s'.active[id].timerId == x;
      } else {
        var th :| th in s.active && s.active[th].timerId == x;
        assert s'.active[th].timerId == x;
      }
    }
  }

  class BlockedQueue {
    var blocked: set<ThreadId>
    var clockMs: nat
    const timerIds: LocalIdManager
    var timers: set<TimerEntry>
    var activeTimers: map<ThreadId, TimerEntry>

    function State(): BlockedState
      reads this, timerIds
    {
      BlockedState(blocked, clockMs, timerIds.State(), timers, activeTimers)
    }

    ghost predicate Valid()
      reads this, timerIds
    {
      TimersValid(State())
    }

    constructor ()
      ensures Valid() && blocked == {} && activeTimers == map[] && clockMs == 0 && fresh(timerIds) && timerIds.start == 1
    {
      var ids := new LocalIdManager(1);
      blocked, clockMs, timers, activeTimers := {}, 0, {}, map[];
      timerIds := ids;
    }

    method RemoveTimer(id: ThreadId) returns (removed: Option<TimerEntry>)
      requires IdsValid(timerIds.State())
      modifies this, timerIds
      ensures State() == Untimed(old(State()), id) && blocked == old(blocked) && activeTimers == old(activeTimers) - {id}
      ensures removed == if id in old(activeTimers) then Some(old(activeTimers)[id]) else None
    {
      if id in activeTimers {
        var timer := activeTimers[id];
        activeTimers := activeTimers - {id};
        timers := timers - {timer};
        timerIds.Free(timer.timerId);
        return Some(timer);
      }
      return None;
    }

    method Block(id: ThreadId) returns (hadTimer: bool)
      requires Valid()
      modifies this, timerIds
      ensures Valid() && hadTimer == (id in old(activeTimers))
      ensures var was := Untimed(old(State()), id); State() == was.(blocked := was.blocked + {id})
      ensures blocked == old(blocked) + {id} && activeTimers == old(activeTimers) - {id}
    {
      UntimedKeeps(State(), {}, id);
      var removed := RemoveTimer(id);
      blocked := blocked + {id};
      hadTimer := removed.Some?;
    }

    /** Fails, changing nothing, only if every timer id is in use. */
    method BlockWithTimeout(id: ThreadId, timeoutMs: nat) returns (hadTimer: Option<bool>)
      requires Valid()
      modifies this, timerIds
      ensures Valid()
      ensures hadTimer.None? <==> Exhausted(old(timerIds.State()))
      ensures hadTimer.None? ==> State() == old(State())
      ensures hadTimer.Some? ==>
        && hadTimer.value == (id in old(activeTimers))
        && var (ids, timerId) := Allocated(old(timerIds.State()));
        && timerId.Some?
        && State() == Timed(Untimed(old(State()).(ids := ids), id), id, timerId.value, timeoutMs)
        && activeTimers == old(activeTimers)[id := TimerEntry(SatAdd64(old(clockMs), timeoutMs), timerId.value, id)]
        && blocked == old(blocked) + {id} && clockMs == old(clockMs)
    {
      hide TimersBut, IdsValid, Allocated;
      ghost var before := State();
      TimersHaveIds(before, {});
      AllocatedIsNew(before.ids);
      var timerId := timerIds.TryAllocate();
      if timerId.None? {
        assert State() == before by { NoneAllocated(before.ids); }
        return None;
      }
      AllocatedSpare(before);
      UntimedKeeps(State(), {timerId.value}, id);
      var deadline := SatAdd64(clockMs, timeoutMs);
      var timer := TimerEntry(deadline, timerId.value, id);
      TimersHaveIds(State(), {timerId.value});
      var removed := RemoveTimer(id);
      TimedKeeps(State(), id, timerId.value, timeoutMs);
      blocked := blocked + {id};
      timers := timers + {timer};
      activeTimers := activeTimers[id := timer];
      return Some(removed.Some?);
    }

    method Unblock(id: ThreadId) returns (wasBlocked: bool, hadTimer: bool)
      requires Valid()
      modifies this, timerIds
      ensures Valid() && wasBlocked == (id in old(blocked)) && hadTimer == (id in old(activeTimers))
      ensures blocked == old(blocked) - {id} && activeTimers == old(activeTimers) - {id}
      ensures var was := Untimed(old(State()), id); State() == was.(blocked := was.blocked - {id})
    {
      UntimedKeeps(State(), {}, id);
      var removed := RemoveTimer(id);
      wasBlocked, hadTimer := id in blocked, removed.Some?;
      blocked := blocked - {id};
    }

    method Remove(id: ThreadId) returns (info: Option<bool>)
      requires Valid()
      modifies this, timerIds
      ensures Valid() && info == if id in old(blocked) then Some(id in old(activeTimers)) else None
      ensures blocked == old(blocked) - {id} && activeTimers == old(activeTimers) - {id}
      ensures var was := Untimed(old(State()), id); State() == was.(blocked := was.blocked - {id})
    {
      UntimedKeeps(State(), {}, id);
      var removed := RemoveTimer(id);
      info := if id in blocked then Some(removed.Some?) else None;
      blocked := blocked - {id};
    }

    /** Advances the clock and wakes exactly the threads whose deadline is reached, in timer order. */
    method TickTimeouts(deltaMs: nat) returns (woke: seq<ThreadId>)
      requires Valid()
      modifies this, timerIds
      ensures Valid()
      ensures (State(), woke) == Ticked(old(State()), deltaMs)
      ensures var moved := old(State()).(clock := SatAdd64(old(clockMs), deltaMs));
        WokeExactly(moved, woke) && Awakened(moved, woke, State())
    {
      hide TimersBut, WokeExactly, Awakened, Before, Continues, Expire, IsFirst;
      ghost var before := State();
      ClockMoves(before, deltaMs);
      clockMs := SatAdd64(clockMs, deltaMs);
      ghost var start := State();
      ExpireIsExact(start);
      woke := [];
      ContinuesStart(start);
      while timers != {}
        invariant Valid()
        invariant Continues(start, woke, State())
        decreases timers
      {
        var timer := FirstTimer(timers);
        FirstIsUnique(timers, timer);
        if timer.deadline > clockMs {
          ContinuesEnd(start, woke, State());
          return;
        }
        ghost var s := State();
        ContinuesPop(start, woke, s);
        PoppedKeeps(s);
        TimersHaveIds(s, {});
        timers := timers - {timer};
        if timer.thread in activeTimers && activeTimers[timer.thread] == timer {
          activeTimers := activeTimers - {timer.thread};
          timerIds.Free(timer.timerId);
          if timer.thread in blocked {
            blocked := blocked - {timer.thread};
            woke := woke + [timer.thread];
          }
        }
        assert State() == Popped(s, timer);
      }
      ContinuesEnd(start, woke, State());
    }
  }

  /** Expiring from `start` first wakes `woke` and then goes on as from `s`. */
  ghost predicate Continues(start: BlockedState, woke: seq<ThreadId>, s: BlockedState) {
    Expire(start).0 == Expire(s).0 && Expire(start).1 == woke + Expire(s).1
  }

  lemma ContinuesStart(start: BlockedState)
    ensures Continues(start, [], start)
  {}

  lemma ContinuesPop(start: BlockedState, woke: seq<ThreadId>, s: BlockedState)
    requires Continues(start, woke, s) && Due(s)
    ensures Continues(start, woke + PoppedThreads(s, First(s.timers)), Popped(s, First(s.timers)))
  {}

  lemma ContinuesEnd(start: BlockedState, woke: seq<ThreadId>, s: BlockedState)
    requires Continues(start, woke, s) && !Due(s)
    ensures Expire(start) == (s, woke)
  {
    assert woke + [] == woke;
  }

  lemma TimersHaveIds(s: BlockedState, spare: set<nat>)
    requires TimersBut(s, spare)
    ensures IdsValid(s.ids)
  {}

  lemma ClockMoves(s: BlockedState, delta: nat)
    requires TimersValid(s)
    ensures TimersValid(s.(clock := SatAdd64(s.clock, delta)))
  {}

  method FirstTimer(timers: set<TimerEntry>) returns (first: TimerEntry)
    requires timers != {}
    ensures IsFirst(timers, first)
  {
    first :| first in timers;
    var rest := timers - {first};
    while rest != {}
      invariant rest <= timers && first in timers && first !in rest
      invariant forall u :: u in timers ==> u in rest || u == first || Before(first, u)
      decreases rest
    {
      var t :| t in rest;
      if Before(t, first) { first := t; }
      rest := rest - {t};
    }
  }
}
