/** Two-counter reservation on atomic counters, under every interleaving of its steps. */
module ThreadQuota {
  import opened Machine

  /** Limits on the first counter (objects, messages) and the second (bytes). */
  datatype Limits = Limits(first: u64, second: u64)

  /** Where one caller is in a reservation or in its release. `seen` is what the add returned. */
  datatype Pc =
    | Start
    | FirstAdded(seen: nat)
    | SecondAdded(seen: nat)
    | SecondUndone
    | Failed
    | Granted
    | FirstReleased
    | Released

  datatype Call = Call(first: u64, second: u64, pc: Pc)

  /** The two counters, which wrap at 2^64, and every call made so far. */
  datatype Quota = Quota(first: nat, second: nat, calls: seq<Call>)

  function Plus(counter: nat, amount: nat): nat {
    (counter + amount) % U64_COUNT
  }

  function Minus(counter: nat, amount: u64): nat {
    (counter + (U64_COUNT - amount)) % U64_COUNT
  }

  /** One atomic step of one call. */
  function Advanced(l: Limits, q: Quota, i: nat): Quota
    requires i < |q.calls|
  {
    var c := q.calls[i];
    match c.pc
    case Start => Quota(Plus(q.first, c.first), q.second, q.calls[i := c.(pc := FirstAdded(q.first))])
    case FirstAdded(seen) =>
      if SatAdd64(seen, c.first) > l.first
      then Quota(Minus(q.first, c.first), q.second, q.calls[i := c.(pc := Failed)])
      else Quota(q.first, Plus(q.second, c.second), q.calls[i := c.(pc := SecondAdded(q.second))])
    case SecondAdded(seen) =>
      if SatAdd64(seen, c.second) > l.second
      then Quota(q.first, Minus(q.second, c.second), q.calls[i := c.(pc := SecondUndone)])
      else q.(calls := q.calls[i := c.(pc := Granted)])
    case SecondUndone => Quota(Minus(q.first, c.first), q.second, q.calls[i := c.(pc := Failed)])
    case Granted => Quota(Minus(q.first, c.first), q.second, q.calls[i := c.(pc := FirstReleased)])
    case FirstReleased => Quota(q.first, Minus(q.second, c.second), q.calls[i := c.(pc := Released)])
    case _ => q
  }

  datatype Event = Begin(first: u64, second: u64) | Advance(i: nat)

  function Step(l: Limits, q: Quota, e: Event): Quota {
    match e
    case Begin(first, second) => q.(calls := q.calls + [Call(first, second, Start)])
    case Advance(i) => if i < |q.calls| then Advanced(l, q, i) else q
  }

  /** A schedule: which call takes its next step, and when calls begin. */
  function Run(l: Limits, events: seq<Event>): Quota {
    if events == [] then Quota(0, 0, [])
    else Step(l, Run(l, events[..|events| - 1]), events[|events| - 1])
  }

  // ----- what calls hold -----

  /** What a call has added to the first counter and not taken back. */
  function HeldFirst(c: Call): nat {
    if c.pc.FirstAdded? || c.pc.SecondAdded? || c.pc.SecondUndone? || c.pc.Granted? then c.first else 0
  }

  function HeldSecond(c: Call): nat {
    if c.pc.SecondAdded? || c.pc.Granted? || c.pc.FirstReleased? then c.second else 0
  }

  /** The part of it that has passed, or will pass, the limit check. */
  function PassedFirst(l: Limits): Call -> nat {
    (c: Call) => if c.pc.FirstAdded? && SatAdd64(c.pc.seen, c.first) > l.first then 0 else HeldFirst(c)
  }

  function PassedSecond(l: Limits): Call -> nat {
    (c: Call) => if c.pc.SecondAdded? && SatAdd64(c.pc.seen, c.second) > l.second then 0 else HeldSecond(c)
  }

  function GrantedFirst(c: Call): nat {
    if c.pc.Granted? then c.first else 0
  }

  function GrantedSecond(c: Call): nat {
    if c.pc.Granted? then c.second else 0
  }

  function Sum(calls: seq<Call>, w: Call -> nat): nat {
    if calls == [] then 0 else Sum(calls[..|calls| - 1], w) + w(calls[|calls| - 1])
  }

  lemma {:induction false} SumUpdate(calls: seq<Call>, w: Call -> nat, i: nat, c: Call)
    requires i < |calls|
    ensures Sum(calls[i := c], w) == Sum(calls, w) - w(calls[i]) + w(c)
  {
    var n := |calls| - 1;
    if i == n {
      assert calls[i := c][..n] == calls[..n];
    } else {
      assert calls[i := c][..n] == calls[..n][i := c];
      SumUpdate(calls[..n], w, i, c);
    }
  }

  lemma SumAppend(calls: seq<Call>, w: Call -> nat, c: Call)
    ensures Sum(calls + [c], w) == Sum(calls, w) + w(c)
  {}

  lemma {:induction false} SumBelow(calls: seq<Call>, w: Call -> nat, w': Call -> nat)
    requires forall c :: w(c) <= w'(c)
    ensures Sum(calls, w) <= Sum(calls, w')
  {
    if calls != [] { SumBelow(calls[..|calls| - 1], w, w'); }
  }

  lemma {:induction false} SumSame(calls: seq<Call>, w: Call -> nat, w': Call -> nat)
    requires forall c :: c in calls ==> w(c) == w'(c)
    ensures Sum(calls, w) == Sum(calls, w')
  {
    if calls != [] { SumSame(calls[..|calls| - 1], w, w'); }
  }

  // ----- the counters are exact modulo 2^64, always -----

  ghost predicate Exact(q: Quota) {
    q.first == Sum(q.calls, HeldFirst) % U64_COUNT && q.second == Sum(q.calls, HeldSecond) % U64_COUNT
  }

  lemma PlusExact(counter: nat, total: nat, amount: nat)
    requires counter == total % U64_COUNT
    ensures Plus(counter, amount) == (total + amount) % U64_COUNT
  {}

  lemma MinusExact(counter: nat, total: nat, amount: u64)
    requires counter == total % U64_COUNT && amount <= total
    ensures Minus(counter, amount) == (total - amount) % U64_COUNT
  {}

  lemma {:induction false} SumAtLeast(calls: seq<Call>, w: Call -> nat, i: nat)
    requires i < |calls|
    ensures w(calls[i]) <= Sum(calls, w)
  {
    if i < |calls| - 1 { SumAtLeast(calls[..|calls| - 1], w, i); }
  }

  /** A step changes a counter by what it changes in the call's holding. */
  lemma FirstFollows(l: Limits, q: Quota, i: nat)
    requires Exact(q) && i < |q.calls|
    ensures Advanced(l, q, i).first == Sum(Advanced(l, q, i).calls, HeldFirst) % U64_COUNT
  {
    hide Plus, Minus, Sum;
    var c := q.calls[i];
    var total := Sum(q.calls, HeldFirst);
    SumUpdate(q.calls, HeldFirst, i, Advanced(l, q, i).calls[i]);
    SumAtLeast(q.calls, HeldFirst, i);
    PlusExact(q.first, total, c.first);
    if c.first <= total { MinusExact(q.first, total, c.first); }
  }

  lemma SecondFollows(l: Limits, q: Quota, i: nat)
    requires Exact(q) && i < |q.calls|
    ensures Advanced(l, q, i).second == Sum(Advanced(l, q, i).calls, HeldSecond) % U64_COUNT
  {
    hide Plus, Minus, Sum;
    var c := q.calls[i];
    var total := Sum(q.calls, HeldSecond);
    SumUpdate(q.calls, HeldSecond, i, Advanced(l, q, i).calls[i]);
    SumAtLeast(q.calls, HeldSecond, i);
    PlusExact(q.second, total, c.second);
    if c.second <= total { MinusExact(q.second, total, c.second); }
  }

  lemma AdvancedExact(l: Limits, q: Quota, i: nat)
    requires Exact(q) && i < |q.calls|
    ensures Exact(Advanced(l, q, i))
  {
    FirstFollows(l, q, i);
    SecondFollows(l, q, i);
  }

  lemma {:induction false} RunExact(l: Limits, events: seq<Event>)
    ensures Exact(Run(l, events))
  {
    if events != [] {
      var q := Run(l, events[..|events| - 1]);
      RunExact(l, events[..|events| - 1]);
      match events[|events| - 1]
      case Begin(first, second) =>
        SumAppend(q.calls, HeldFirst, Call(first, second, Start));
        SumAppend(q.calls, HeldSecond, Call(first, second, Start));
      case Advance(i) =>
        if i < |q.calls| { AdvancedExact(l, q, i); }
    }
  }

  /** No call is between its first step and its last. */
  ghost predicate Quiescent(q: Quota) {
    forall c :: c in q.calls ==> c.pc.Start? || c.pc.Failed? || c.pc.Granted? || c.pc.Released?
  }

  /** With no call in flight the counters hold the granted totals, modulo 2^64: a failed call, in
      whatever order its steps fell, has left nothing behind. */
  lemma QuietCountersAreGranted(l: Limits, events: seq<Event>)
    requires Quiescent(Run(l, events))
    ensures var q := Run(l, events);
      && q.first == Sum(q.calls, GrantedFirst) % U64_COUNT
      && q.second == Sum(q.calls, GrantedSecond) % U64_COUNT
  {
    var q := Run(l, events);
    RunExact(l, events);
    SumSame(q.calls, HeldFirst, GrantedFirst);
    SumSame(q.calls, HeldSecond, GrantedSecond);
  }

  // ----- the limits -----

  /** Amounts of calls that are between their first step and their last. */
  function FlyingFirst(c: Call): nat {
    if c.pc.FirstAdded? || c.pc.SecondAdded? || c.pc.SecondUndone? then c.first else 0
  }

  function FlyingSecond(c: Call): nat {
    if c.pc.SecondAdded? || c.pc.FirstReleased? then c.second else 0
  }

  /** Bounds on the amounts that are in flight at one time, for each counter. */
  datatype InFlight = InFlight(first: nat, second: nat)

  ghost predicate Flies(a: InFlight, q: Quota) {
    Sum(q.calls, FlyingFirst) <= a.first && Sum(q.calls, FlyingSecond) <= a.second
  }

  /** The amounts in flight are within the bounds all through the schedule. */
  ghost predicate Bounded(l: Limits, a: InFlight, events: seq<Event>) {
    forall n :: 0 <= n <= |events| ==> Flies(a, Run(l, events[..n]))
  }

  ghost predicate GrantsWithin(l: Limits, q: Quota) {
    Sum(q.calls, GrantedFirst) <= l.first && Sum(q.calls, GrantedSecond) <= l.second
  }

  /** A limit that holds under every schedule that keeps its counter's amounts in flight within `a`. */
  predicate SafeLimit(limit: u64, a: nat) {
    limit == 0 || a == 0 || (limit < U64_MAX && limit + a <= U64_COUNT)
  }

  // ----- safe limits hold -----

  ghost predicate WithinLimits(l: Limits, q: Quota) {
    Sum(q.calls, PassedFirst(l)) <= l.first && Sum(q.calls, PassedSecond(l)) <= l.second
  }

  lemma {:induction false} SumSplit(calls: seq<Call>, w: Call -> nat, u: Call -> nat, v: Call -> nat)
    requires forall c :: w(c) <= u(c) + v(c)
    ensures Sum(calls, w) <= Sum(calls, u) + Sum(calls, v)
  {
    if calls != [] { SumSplit(calls[..|calls| - 1], w, u, v); }
  }

  /** Passed lies between granted and held, and held exceeds granted by what is in flight. */
  lemma HeldIsGrantedAndFlying(l: Limits, calls: seq<Call>)
    ensures Sum(calls, GrantedFirst) <= Sum(calls, PassedFirst(l)) <= Sum(calls, HeldFirst) <= Sum(calls, GrantedFirst) + Sum(calls, FlyingFirst)
    ensures Sum(calls, GrantedSecond) <= Sum(calls, PassedSecond(l)) <= Sum(calls, HeldSecond) <= Sum(calls, GrantedSecond) + Sum(calls, FlyingSecond)
  {
    hide Sum;
    SumBelow(calls, GrantedFirst, PassedFirst(l));
    SumBelow(calls, PassedFirst(l), HeldFirst);
    SumSplit(calls, HeldFirst, GrantedFirst, FlyingFirst);
    SumBelow(calls, GrantedSecond, PassedSecond(l));
    SumBelow(calls, PassedSecond(l), HeldSecond);
    SumSplit(calls, HeldSecond, GrantedSecond, FlyingSecond);
  }

  lemma SmallIsItself(n: nat)
    requires n < U64_COUNT
    ensures n % U64_COUNT == n
  {}

  /** An amount that passes a safe limit had room under it, although the counter may have wrapped. */
  lemma PassingHasRoom(limit: u64, a: nat, passed: nat, held: nat, flying: nat, amount: u64)
    requires SafeLimit(limit, a) && passed <= limit && passed <= held <= limit + flying && flying + amount <= a
    requires SatAdd64(held % U64_COUNT, amount) <= limit
    ensures passed + amount <= limit
  {
    if limit > 0 && amount > 0 {
      SmallIsItself(held);
    }
  }

  /** A call's passed amount grows only when its add finds room under the limit. */
  lemma FirstPasses(l: Limits, q: Quota, i: nat)
    requires i < |q.calls|
    ensures var c, c' := q.calls[i], Advanced(l, q, i).calls[i];
      || PassedFirst(l)(c') <= PassedFirst(l)(c)
      || (PassedFirst(l)(c) == FlyingFirst(c) == 0 && PassedFirst(l)(c') == FlyingFirst(c') == c.first && SatAdd64(q.first, c.first) <= l.first)
  {}

  lemma SecondPasses(l: Limits, q: Quota, i: nat)
    requires i < |q.calls|
    ensures var c, c' := q.calls[i], Advanced(l, q, i).calls[i];
      || PassedSecond(l)(c') <= PassedSecond(l)(c)
      || (PassedSecond(l)(c) == FlyingSecond(c) == 0 && PassedSecond(l)(c') == FlyingSecond(c') == c.second && SatAdd64(q.second, c.second) <= l.second)
  {}

  lemma AdvancedWithin(l: Limits, a: InFlight, q: Quota, i: nat)
    requires Exact(q) && WithinLimits(l, q) && i < |q.calls| && Flies(a, Advanced(l, q, i))
    requires SafeLimit(l.first, a.first) && SafeLimit(l.second, a.second)
    ensures WithinLimits(l, Advanced(l, q, i))
  {
    hide Plus, Minus, Sum, PassedFirst, PassedSecond, SafeLimit, FlyingFirst, FlyingSecond;
    var c, c' := q.calls[i], Advanced(l, q, i).calls[i];
    assert Advanced(l, q, i).calls == q.calls[i := c'];
    HeldIsGrantedAndFlying(l, q.calls);
    SumUpdate(q.calls, PassedFirst(l), i, c');
    SumUpdate(q.calls, FlyingFirst, i, c');
    FirstPasses(l, q, i);
    if PassedFirst(l)(c') > PassedFirst(l)(c) {
      PassingHasRoom(l.first, a.first, Sum(q.calls, PassedFirst(l)), Sum(q.calls, HeldFirst), Sum(q.calls, FlyingFirst), c.first);
    }
    SumUpdate(q.calls, PassedSecond(l), i, c');
    SumUpdate(q.calls, FlyingSecond, i, c');
    SecondPasses(l, q, i);
    if PassedSecond(l)(c') > PassedSecond(l)(c) {
      PassingHasRoom(l.second, a.second, Sum(q.calls, PassedSecond(l)), Sum(q.calls, HeldSecond), Sum(q.calls, FlyingSecond), c.second);
    }
  }

  lemma {:induction false} RunWithin(l: Limits, a: InFlight, events: seq<Event>)
    requires Bounded(l, a, events) && SafeLimit(l.first, a.first) && SafeLimit(l.second, a.second)
    ensures WithinLimits(l, Run(l, events))
  {
    hide SafeLimit, Flies;
    if events != [] {
      var before := events[..|events| - 1];
      var q := Run(l, before);
      BoundedBefore(l, a, events);
      RunWithin(l, a, before);
      RunExact(l, before);
      match events[|events| - 1]
      case Begin(first, second) =>
        SumAppend(q.calls, PassedFirst(l), Call(first, second, Start));
        SumAppend(q.calls, PassedSecond(l), Call(first, second, Start));
      case Advance(i) =>
        if i < |q.calls| { AdvancedWithin(l, a, q, i); }
    }
  }

  lemma BoundedBefore(l: Limits, a: InFlight, events: seq<Event>)
    requires Bounded(l, a, events) && events != []
    ensures Bounded(l, a, events[..|events| - 1]) && Flies(a, Run(l, events))
  {
    hide Run, Flies;
    var before := events[..|events| - 1];
    forall n | 0 <= n <= |before| ensures Flies(a, Run(l, before[..n])) { assert before[..n] == events[..n]; }
    assert events[..|events|] == events;
  }

  /** Under every interleaving that keeps the amounts in flight within bounds for which the limits
      are safe, the granted totals stay within both limits, and with no call in flight the counters
      equal them. */
  lemma ReservationIsSafe(l: Limits, a: InFlight, events: seq<Event>)
    requires Bounded(l, a, events) && SafeLimit(l.first, a.first) && SafeLimit(l.second, a.second)
    ensures GrantsWithin(l, Run(l, events))
    ensures var q := Run(l, events);
      Quiescent(q) ==> q.first == Sum(q.calls, GrantedFirst) && q.second == Sum(q.calls, GrantedSecond)
  {
    hide Run, Sum, Bounded, SafeLimit;
    var q := Run(l, events);
    RunWithin(l, a, events);
    HeldIsGrantedAndFlying(l, q.calls);
    if Quiescent(q) {
      QuietCountersAreGranted(l, events);
      SmallIsItself(Sum(q.calls, GrantedFirst));
      SmallIsItself(Sum(q.calls, GrantedSecond));
    }
  }

  // ----- other limits do not -----

  /** Some schedule within the bounds leads to this state. */
  ghost predicate Attainable(l: Limits, a: InFlight, q: Quota) {
    exists events :: Bounded(l, a, events) && Run(l, events) == q
  }

  lemma AttainStep(l: Limits, a: InFlight, q: Quota, e: Event)
    requires Attainable(l, a, q) && Flies(a, Step(l, q, e))
    ensures Attainable(l, a, Step(l, q, e))
  {
    hide Step, Flies;
    var events :| Bounded(l, a, events) && Run(l, events) == q;
    var longer := events + [e];
    assert longer[..|events|] == events;
    forall n | 0 <= n <= |longer| ensures Flies(a, Run(l, longer[..n])) {
      if n <= |events| { assert longer[..n] == events[..n]; } else { assert longer[..n] == longer; }
    }
    assert Run(l, longer) == Step(l, q, e);
  }

  function Joined(q: Quota, first: nat, second: nat, c: Call): Quota {
    Quota(first, second, q.calls + [c])
  }

  lemma JoinedFlies(a: InFlight, q: Quota, first: nat, second: nat, c: Call)
    requires Sum(q.calls, FlyingFirst) + FlyingFirst(c) <= a.first && Sum(q.calls, FlyingSecond) + FlyingSecond(c) <= a.second
    ensures Flies(a, Joined(q, first, second, c))
  {
    SumAppend(q.calls, FlyingFirst, c);
    SumAppend(q.calls, FlyingSecond, c);
  }

  /** One more call's step, in terms of the state it joined. */
  lemma JoinedStep(l: Limits, a: InFlight, q: Quota, first: nat, second: nat, c: Call, first': nat, second': nat, c': Call)
    requires Attainable(l, a, Joined(q, first, second, c))
    requires Advanced(l, Joined(q, first, second, c), |q.calls|) == Joined(q, first', second', c')
    requires Sum(q.calls, FlyingFirst) + FlyingFirst(c') <= a.first && Sum(q.calls, FlyingSecond) + FlyingSecond(c') <= a.second
    ensures Attainable(l, a, Joined(q, first', second', c'))
  {
    hide Advanced, Attainable, Flies, Sum, FlyingFirst, FlyingSecond;
    JoinedFlies(a, q, first', second', c');
    AttainStep(l, a, Joined(q, first, second, c), Advance(|q.calls|));
  }

  lemma JoinBegins(l: Limits, a: InFlight, q: Quota, x: u64, y: u64)
    requires Attainable(l, a, q) && Flies(a, q)
    ensures Attainable(l, a, Joined(q, q.first, q.second, Call(x, y, Start)))
  {
    hide Attainable, Sum;
    JoinedFlies(a, q, q.first, q.second, Call(x, y, Start));
    AttainStep(l, a, q, Begin(x, y));
  }

  /** The new call adds to the first counter. */
  lemma JoinAddsFirst(l: Limits, a: InFlight, q: Quota, x: u64, y: u64)
    requires Attainable(l, a, q) && Flies(a, q) && Sum(q.calls, FlyingFirst) + x <= a.first
    ensures Attainable(l, a, Joined(q, Plus(q.first, x), q.second, Call(x, y, FirstAdded(q.first))))
  {
    hide Attainable, Sum, Plus;
    JoinBegins(l, a, q, x, y);
    JoinedStep(l, a, q, q.first, q.second, Call(x, y, Start), Plus(q.first, x), q.second, Call(x, y, FirstAdded(q.first)));
  }

  /** The new call passes the first limit and adds to the second counter. */
  lemma JoinAddsSecond(l: Limits, a: InFlight, q: Quota, x: u64, y: u64)
    requires Attainable(l, a, q) && Flies(a, q) && Sum(q.calls, FlyingFirst) + x <= a.first && Sum(q.calls, FlyingSecond) + y <= a.second
    requires SatAdd64(q.first, x) <= l.first
    ensures Attainable(l, a, Joined(q, Plus(q.first, x), Plus(q.second, y), Call(x, y, SecondAdded(q.second))))
  {
    hide Attainable, Sum, Plus;
    JoinAddsFirst(l, a, q, x, y);
    JoinedStep(l, a, q, Plus(q.first, x), q.second, Call(x, y, FirstAdded(q.first)),
      Plus(q.first, x), Plus(q.second, y), Call(x, y, SecondAdded(q.second)));
  }

  lemma JoinGranted(l: Limits, a: InFlight, q: Quota, x: u64, y: u64)
    requires Attainable(l, a, q) && Flies(a, q) && Sum(q.calls, FlyingFirst) + x <= a.first && Sum(q.calls, FlyingSecond) + y <= a.second
    requires SatAdd64(q.first, x) <= l.first && SatAdd64(q.second, y) <= l.second
    ensures Attainable(l, a, Joined(q, Plus(q.first, x), Plus(q.second, y), Call(x, y, Granted)))
  {
    hide Attainable, Sum, Plus;
    JoinAddsSecond(l, a, q, x, y);
    JoinedStep(l, a, q, Plus(q.first, x), Plus(q.second, y), Call(x, y, SecondAdded(q.second)),
      Plus(q.first, x), Plus(q.second, y), Call(x, y, Granted));
  }

  function Part<T>(first: bool, x: T, y: T): T {
    if first then x else y
  }

  /** A call for an amount of one counter only. */
  function CallFor(first: bool, amount: u64, pc: Pc): Call {
    Call(Part(first, amount, 0), Part(first, 0, amount), pc)
  }

  /** The state after `n` grants of one unit each, all of one counter. */
  function Units(first: bool, n: nat): Quota
    requires n < U64_COUNT
  {
    Quota(Part(first, n, 0), Part(first, 0, n), seq(n, _ => CallFor(first, 1, Granted)))
  }

  lemma {:induction false} UnitSums(first: bool, n: nat)
    requires n < U64_COUNT
    ensures var calls := Units(first, n).calls;
      && Sum(calls, FlyingFirst) == 0 && Sum(calls, FlyingSecond) == 0
      && Sum(calls, GrantedFirst) == Part(first, n, 0) && Sum(calls, GrantedSecond) == Part(first, 0, n)
  {
    if n > 0 {
      UnitSums(first, n - 1);
      assert Units(first, n).calls[..n - 1] == Units(first, n - 1).calls;
    }
  }

  lemma {:induction false} UnitsAttainable(l: Limits, a: InFlight, first: bool, n: nat)
    requires Part(first, a.first, a.second) >= 1 && n <= Part(first, l.first, l.second)
    ensures Attainable(l, a, Units(first, n)) && Flies(a, Units(first, n))
  {
    hide Attainable, Sum, Units, Plus;
    UnitSums(first, n);
    if n == 0 {
      NothingAttainable(l, a);
      NoUnits(first);
    } else {
      UnitsAttainable(l, a, first, n - 1);
      UnitSums(first, n - 1);
      UnitsFields(first, n - 1);
      JoinGranted(l, a, Units(first, n - 1), Part(first, 1, 0), Part(first, 0, 1));
      UnitsExtend(first, n);
    }
  }

  lemma NoUnits(first: bool)
    ensures Units(first, 0) == Quota(0, 0, [])
  {}

  lemma UnitsFields(first: bool, n: nat)
    requires n < U64_COUNT
    ensures Units(first, n).first == Part(first, n, 0) && Units(first, n).second == Part(first, 0, n)
  {}

  lemma UnitsExtend(first: bool, n: nat)
    requires 0 < n < U64_COUNT
    ensures var q := Units(first, n - 1);
      Units(first, n) == Joined(q, Plus(q.first, Part(first, 1, 0)), Plus(q.second, Part(first, 0, 1)), CallFor(first, 1, Granted))
  {
    var q := Units(first, n - 1);
    assert Units(first, n).calls == q.calls + [CallFor(first, 1, Granted)];
    SmallIsItself(n);
    SmallIsItself(0);
  }

  lemma NothingAttainable(l: Limits, a: InFlight)
    ensures Attainable(l, a, Quota(0, 0, []))
  {
    var none: seq<Event> := [];
    assert Run(l, none[..0]) == Quota(0, 0, []);
    assert Bounded(l, a, none);
  }

  /** After the limit is granted in units, a call in flight brings the counter round to zero. */
  function Wrapped(first: bool, limit: u64): Quota
    requires limit >= 1
  {
    Joined(Units(first, limit), 0, 0,
      CallFor(first, U64_COUNT - limit, Part(first, FirstAdded(limit), SecondAdded(limit))))
  }

  lemma WrappedAttainable(l: Limits, a: InFlight, first: bool)
    requires var limit := Part(first, l.first, l.second); limit >= 1 && U64_COUNT - limit < Part(first, a.first, a.second)
    ensures Attainable(l, a, Wrapped(first, Part(first, l.first, l.second)))
  {
    hide Attainable, Sum, Flies, Units;
    var limit := Part(first, l.first, l.second);
    UnitsFields(first, limit);
    UnitsAttainable(l, a, first, limit);
    UnitSums(first, limit);
    var q := Units(first, limit);
    if first {
      JoinAddsFirst(l, a, q, U64_COUNT - limit, 0);
    } else {
      JoinAddsSecond(l, a, q, 0, U64_COUNT - limit);
    }
  }

  lemma WrappedSums(first: bool, limit: u64)
    requires limit >= 1
    ensures var calls := Wrapped(first, limit).calls;
      && Sum(calls, FlyingFirst) == Part(first, U64_COUNT - limit, 0) && Sum(calls, FlyingSecond) == Part(first, 0, U64_COUNT - limit)
      && Sum(calls, GrantedFirst) == Part(first, limit, 0) && Sum(calls, GrantedSecond) == Part(first, 0, limit)
  {
    hide Sum;
    UnitSums(first, limit);
    var calls := Units(first, limit).calls;
    var c := CallFor(first, U64_COUNT - limit, Part(first, FirstAdded(limit), SecondAdded(limit)));
    SumAppend(calls, FlyingFirst, c);
    SumAppend(calls, FlyingSecond, c);
    SumAppend(calls, GrantedFirst, c);
    SumAppend(calls, GrantedSecond, c);
  }

  /** One unit more is granted in a state that has granted the limit already. */
  lemma OneUnitMore(l: Limits, a: InFlight, first: bool, q: Quota)
    requires Attainable(l, a, q) && Flies(a, q)
    requires Part(first, Sum(q.calls, FlyingFirst) < a.first, Sum(q.calls, FlyingSecond) < a.second)
    requires Part(first, Sum(q.calls, GrantedFirst) == l.first, Sum(q.calls, GrantedSecond) == l.second)
    requires Part(first, SatAdd64(q.first, 1) <= l.first && q.second == 0, q.first == 0 && SatAdd64(q.second, 1) <= l.second)
    ensures exists q' :: Attainable(l, a, q') && !GrantsWithin(l, q')
  {
    hide Attainable, Sum, Plus;
    var c := CallFor(first, 1, Granted);
    JoinGranted(l, a, q, c.first, c.second);
    var q' := Joined(q, Plus(q.first, c.first), Plus(q.second, c.second), c);
    SumAppend(q.calls, GrantedFirst, c);
    SumAppend(q.calls, GrantedSecond, c);
    assert Attainable(l, a, q') && !GrantsWithin(l, q');
  }

  /** A limit that is not safe is exceeded: grant it in units, bring the counter round to zero by a
      call that will fail, and ask for one unit more. At the largest limit the sum saturates, and
      one unit more passes without that call. */
  lemma UnsafeLimitBreaks(l: Limits, a: InFlight, first: bool)
    requires !SafeLimit(Part(first, l.first, l.second), Part(first, a.first, a.second))
    ensures exists q :: Attainable(l, a, q) && !GrantsWithin(l, q)
  {
    hide Attainable, Sum, GrantsWithin;
    var limit, bound := Part(first, l.first, l.second), Part(first, a.first, a.second);
    if limit == U64_MAX {
      UnitsAttainable(l, a, first, limit);
      UnitSums(first, limit);
      OneUnitMore(l, a, first, Units(first, limit));
    } else {
      WrappedAttainable(l, a, first);
      WrappedSums(first, limit);
      OneUnitMore(l, a, first, Wrapped(first, limit));
    }
  }

  /** Every schedule that keeps the amounts in flight within the bounds stays within both limits. */
  ghost predicate AlwaysWithin(l: Limits, a: InFlight) {
    forall events :: Bounded(l, a, events) ==> GrantsWithin(l, Run(l, events))
  }

  /** The limits hold under every schedule within the bounds exactly if each is safe for its bound. */
  lemma LimitsHoldIff(l: Limits, a: InFlight)
    ensures AlwaysWithin(l, a) <==> SafeLimit(l.first, a.first) && SafeLimit(l.second, a.second)
  {
    hide Bounded, Run, GrantsWithin, SafeLimit;
    if SafeLimit(l.first, a.first) && SafeLimit(l.second, a.second) {
      forall events | Bounded(l, a, events) ensures GrantsWithin(l, Run(l, events)) {
        ReservationIsSafe(l, a, events);
      }
    } else {
      UnsafeLimitBreaks(l, a, !SafeLimit(l.first, a.first));
      var q :| Attainable(l, a, q) && !GrantsWithin(l, q);
      var events :| Bounded(l, a, events) && Run(l, events) == q;
      assert !AlwaysWithin(l, a);
    }
  }
}
