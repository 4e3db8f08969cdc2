/** The run queue: entries are deleted lazily, by token, and the queue still is a plain sequence. */
module RunQueue {
  import opened Machine

  type ThreadId = nat

  datatype Entry = Entry(id: ThreadId, token: nat, front: bool)

  /** What the queue means: runnable threads, head first, with their front flags. */
  datatype Waiting = Waiting(id: ThreadId, front: bool)

  type Queued = map<ThreadId, nat>

  predicate Current(e: Entry, queued: Queued) {
    e.id in queued && queued[e.id] == e.token
  }

  /** The entries that are not stale. */
  ghost function View(queue: seq<Entry>, queued: Queued): seq<Waiting> {
    if queue == [] then []
    else (if Current(queue[0], queued) then [Waiting(queue[0].id, queue[0].front)] else []) + View(queue[1..], queued)
  }

  /** Tokens are handed out once, and each queued thread has the entry that carries its token. */
  ghost predicate QueueValid(queue: seq<Entry>, queued: Queued, nextToken: nat) {
    && (forall i :: 0 <= i < |queue| ==> queue[i].token <= nextToken)
    && (forall i, j :: 0 <= i < j < |queue| ==> queue[i].token != queue[j].token)
    && (forall id :: id in queued ==> queued[id] <= nextToken)
    && (forall id :: id in queued ==> exists i :: 0 <= i < |queue| && queue[i].id == id && queue[i].token == queued[id])
  }

  /** The sequence without a thread. */
  ghost function Without(v: seq<Waiting>, id: ThreadId): seq<Waiting> {
    if v == [] then [] else (if v[0].id == id then [] else [v[0]]) + Without(v[1..], id)
  }

  ghost function Ids(v: seq<Waiting>): set<ThreadId> {
    if v == [] then {} else {v[0].id} + Ids(v[1..])
  }

  ghost predicate OncePerThread(v: seq<Waiting>) {
    v == [] || (v[0].id !in Ids(v[1..]) && OncePerThread(v[1..]))
  }

  lemma {:induction false} ViewOver(a: seq<Entry>, b: seq<Entry>, queued: Queued)
    ensures View(a + b, queued) == View(a, queued) + View(b, queued)
  {
    if a == [] {
      assert a + b == b;
    } else {
      assert (a + b)[1..] == a[1..] + b;
      ViewOver(a[1..], b, queued);
    }
  }

  /** Adding a thread with a token no entry carries leaves the old view as it was. */
  lemma {:induction false} ViewUnaffected(queue: seq<Entry>, queued: Queued, id: ThreadId, token: nat)
    requires id !in queued && forall i :: 0 <= i < |queue| ==> queue[i].token != token
    ensures View(queue, queued[id := token]) == View(queue, queued)
  {
    if queue != [] { ViewUnaffected(queue[1..], queued, id, token); }
  }

  lemma {:induction false} ViewWithout(queue: seq<Entry>, queued: Queued, id: ThreadId)
    ensures View(queue, queued - {id}) == Without(View(queue, queued), id)
  {
    if queue != [] {
      ViewWithout(queue[1..], queued, id);
      var rest := View(queue[1..], queued);
      if Current(queue[0], queued) {
        var w := Waiting(queue[0].id, queue[0].front);
        assert View(queue, queued) == [w] + rest;
        assert ([w] + rest)[1..] == rest;
      } else {
        assert View(queue, queued) == rest;
      }
    }
  }

  lemma ViewHead(queue: seq<Entry>, queued: Queued)
    requires queue != []
    ensures Ids(View(queue, queued)) == (if Current(queue[0], queued) then {queue[0].id} else {}) + Ids(View(queue[1..], queued))
    ensures Current(queue[0], queued) ==>
      View(queue, queued) != [] && View(queue, queued)[0].id == queue[0].id && View(queue, queued)[1..] == View(queue[1..], queued)
    ensures !Current(queue[0], queued) ==> View(queue, queued) == View(queue[1..], queued)
  {
    var rest := View(queue[1..], queued);
    if Current(queue[0], queued) {
      assert View(queue, queued)[1..] == rest;
    } else {
      assert View(queue, queued) == rest;
    }
  }

  lemma {:induction false} CurrentIsViewed(queue: seq<Entry>, queued: Queued, i: nat)
    requires i < |queue| && Current(queue[i], queued)
    ensures queue[i].id in Ids(View(queue, queued))
  {
    ViewHead(queue, queued);
    if i > 0 { CurrentIsViewed(queue[1..], queued, i - 1); }
  }

  lemma {:induction false} ViewedIsCurrent(queue: seq<Entry>, queued: Queued, id: ThreadId) returns (i: nat)
    requires id in Ids(View(queue, queued))
    ensures i < |queue| && Current(queue[i], queued) && queue[i].id == id
  {
    ViewHead(queue, queued);
    if Current(queue[0], queued) && queue[0].id == id {
      i := 0;
    } else {
      var k := ViewedIsCurrent(queue[1..], queued, id);
      i := k + 1;
    }
  }

  lemma {:induction false} ViewDistinct(queue: seq<Entry>, queued: Queued)
    requires forall i, j :: 0 <= i < j < |queue| ==> queue[i].token != queue[j].token
    ensures OncePerThread(View(queue, queued))
  {
    if queue != [] {
      ViewDistinct(queue[1..], queued);
      ViewHead(queue, queued);
      if Current(queue[0], queued) && queue[0].id in Ids(View(queue[1..], queued)) {
        var i := ViewedIsCurrent(queue[1..], queued, queue[0].id);
        assert false;
      }
    }
  }

  lemma {:induction false} IdsCount(v: seq<Waiting>)
    requires OncePerThread(v)
    ensures |Ids(v)| == |v|
  {
    if v != [] { IdsCount(v[1..]); }
  }

  /** The view lists each queued thread exactly once. */
  lemma ViewIsExact(queue: seq<Entry>, queued: Queued, nextToken: nat)
    requires QueueValid(queue, queued, nextToken)
    ensures OncePerThread(View(queue, queued)) && Ids(View(queue, queued)) == queued.Keys
    ensures |View(queue, queued)| == |queued|
  {
    hide View, Ids, OncePerThread;
    ViewDistinct(queue, queued);
    forall id ensures id in Ids(View(queue, queued)) <==> id in queued {
      if id in queued {
        var i :| 0 <= i < |queue| && queue[i].id == id && queue[i].token == queued[id];
        CurrentIsViewed(queue, queued, i);
      }
      if id in Ids(View(queue, queued)) {
        var i := ViewedIsCurrent(queue, queued, id);
      }
    }
    assert Ids(View(queue, queued)) == queued.Keys;
    IdsCount(View(queue, queued));
  }

  class RunnableQueue {
    var queue: seq<Entry>
    var queued: Queued
    var nextToken: nat

    ghost predicate Valid()
      reads this
    {
      QueueValid(queue, queued, nextToken)
    }

    ghost function Contents(): seq<Waiting>
      reads this
    {
      View(queue, queued)
    }

    constructor ()
      ensures Valid() && Contents() == [] && queued == map[] && nextToken == 0
    {
      queue := [];
      queued := map[];
      nextToken := 0;
    }

    method Enqueue(id: ThreadId)
      requires Valid() && nextToken < U64_MAX
      modifies this
      ensures Valid() && nextToken <= old(nextToken) + 1
      ensures Contents() == if id in old(queued) then old(Contents()) else old(Contents()) + [Waiting(id, false)]
      ensures queued.Keys == old(queued).Keys + {id}
    {
      hide QueueValid;
      if id !in queued {
        var token := nextToken + 1;
        TokenUnused(queue, queued, nextToken);
        ViewUnaffected(queue, queued, id, token);
        ViewOver(queue, [Entry(id, token, false)], queued[id := token]);
        AppendValid(queue, queued, nextToken, id);
        nextToken := token;
        queued := queued[id := token];
        queue := queue + [Entry(id, token, false)];
      }
    }

    method EnqueueFront(id: ThreadId)
      requires Valid() && nextToken < U64_MAX
      modifies this
      ensures Valid() && nextToken <= old(nextToken) + 1
      ensures Contents() == if id in old(queued) then old(Contents()) else [Waiting(id, true)] + old(Contents())
      ensures queued.Keys == old(queued).Keys + {id}
    {
      hide QueueValid;
      if id !in queued {
        var token := nextToken + 1;
        TokenUnused(queue, queued, nextToken);
        ViewUnaffected(queue, queued, id, token);
        ViewOver([Entry(id, token, true)], queue, queued[id := token]);
        PrependValid(queue, queued, nextToken, id);
        nextToken := token;
        queued := queued[id := token];
        queue := [Entry(id, token, true)] + queue;
      }
    }

    method DequeueDetailed() returns (next: Option<Waiting>)
      requires Valid()
      modifies this
      ensures Valid() && nextToken == old(nextToken)
      ensures next.None? <==> old(Contents()) == []
      ensures next.None? ==> Contents() == [] && queued == old(queued)
      ensures next.Some? ==> old(Contents()) == [next.value] + Contents() && |queue| < |old(queue)|
      ensures next.Some? ==> next.value.id in old(queued) && queued == old(queued) - {next.value.id}
    {
      while queue != []
        invariant Valid() && queued == old(queued) && nextToken == old(nextToken)
        invariant Contents() == old(Contents()) && |queue| <= |old(queue)|
        decreases |queue|
      {
        var e := queue[0];
        if Current(e, queued) {
          HeadRemoved(queue, queued, nextToken);
          queue := queue[1..];
          queued := queued - {e.id};
          return Some(Waiting(e.id, e.front));
        }
        StaleDropped(queue, queued, nextToken);
        queue := queue[1..];
      }
      return None;
    }

    method Remove(id: ThreadId) returns (removed: bool)
      requires Valid()
      modifies this
      ensures Valid() && nextToken == old(nextToken)
      ensures removed <==> id in old(queued)
      ensures Contents() == Without(old(Contents()), id)
      ensures queued == old(queued) - {id}
    {
      ViewWithout(queue, queued, id);
      removed := id in queued;
      queued := queued - {id};
    }

    method Contains(id: ThreadId) returns (present: bool)
      requires Valid()
      ensures present <==> id in queued
      ensures present <==> id in Ids(Contents())
    {
      ViewIsExact(queue, queued, nextToken);
      present := id in queued;
    }

    method Len() returns (n: nat)
      requires Valid()
      ensures n == |Contents()| == |queued|
    {
      ViewIsExact(queue, queued, nextToken);
      n := |queued|;
    }
  }

  lemma TokenUnused(queue: seq<Entry>, queued: Queued, nextToken: nat)
    requires QueueValid(queue, queued, nextToken)
    ensures forall i :: 0 <= i < |queue| ==> queue[i].token != nextToken + 1
  {}

  lemma AppendValid(queue: seq<Entry>, queued: Queued, nextToken: nat, id: ThreadId)
    requires QueueValid(queue, queued, nextToken)
    ensures QueueValid(queue + [Entry(id, nextToken + 1, false)], queued[id := nextToken + 1], nextToken + 1)
  {
    var queue' := queue + [Entry(id, nextToken + 1, false)];
    var queued' := queued[id := nextToken + 1];
    forall x | x in queued' ensures exists i :: 0 <= i < |queue'| && queue'[i].id == x && queue'[i].token == queued'[x] {
      if x == id {
        assert queue'[|queue|].id == id;
      } else {
        var i :| 0 <= i < |queue| && queue[i].id == x && queue[i].token == queued[x];
        assert queue'[i] == queue[i];
      }
    }
  }

  lemma PrependValid(queue: seq<Entry>, queued: Queued, nextToken: nat, id: ThreadId)
    requires QueueValid(queue, queued, nextToken)
    ensures QueueValid([Entry(id, nextToken + 1, true)] + queue, queued[id := nextToken + 1], nextToken + 1)
  {
    var queue' := [Entry(id, nextToken + 1, true)] + queue;
    var queued' := queued[id := nextToken + 1];
    forall x | x in queued' ensures exists i :: 0 <= i < |queue'| && queue'[i].id == x && queue'[i].token == queued'[x] {
      if x == id {
        assert queue'[0].id == id;
      } else {
        var i :| 0 <= i < |queue| && queue[i].id == x && queue[i].token == queued[x];
        assert queue'[i + 1] == queue[i];
      }
    }
  }

  lemma StaleDropped(queue: seq<Entry>, queued: Queued, nextToken: nat)
    requires QueueValid(queue, queued, nextToken) && queue != [] && !Current(queue[0], queued)
    ensures QueueValid(queue[1..], queued, nextToken) && View(queue[1..], queued) == View(queue, queued)
  {}

  lemma HeadRemoved(queue: seq<Entry>, queued: Queued, nextToken: nat)
    requires QueueValid(queue, queued, nextToken) && queue != [] && Current(queue[0], queued)
    ensures QueueValid(queue[1..], queued - {queue[0].id}, nextToken)
    ensures View(queue, queued) == [Waiting(queue[0].id, queue[0].front)] + View(queue[1..], queued - {queue[0].id})
  {
    var tail := queue[1..];
    var id0 := queue[0].id;
    forall id | id in queued - {id0} ensures exists i :: 0 <= i < |tail| && tail[i].id == id && tail[i].token == queued[id] {
      var i :| 0 <= i < |queue| && queue[i].id == id && queue[i].token == queued[id];
      assert tail[i - 1] == queue[i];
    }
    TailUnaffected(tail, queued, id0);
  }

  lemma {:induction false} TailUnaffected(tail: seq<Entry>, queued: Queued, id: ThreadId)
    requires forall i :: 0 <= i < |tail| && tail[i].id == id ==> !Current(tail[i], queued)
    ensures View(tail, queued - {id}) == View(tail, queued)
  {
    if tail != [] { TailUnaffected(tail[1..], queued, id); }
  }

  // ----- runs -----

  datatype QueueOp = PushBack(id: ThreadId) | PushFront(id: ThreadId) | Delete(id: ThreadId) | Pop | Ask(id: ThreadId) | Count

  datatype Outcome = Done | Deleted(was: bool) | Popped(next: Option<Waiting>) | Present(found: bool) | Counted(n: nat)

  /** The same operations on a plain sequence. */
  ghost function PlainStep(v: seq<Waiting>, op: QueueOp): (seq<Waiting>, Outcome) {
    match op
    case PushBack(id) => (if id in Ids(v) then v else v + [Waiting(id, false)], Done)
    case PushFront(id) => (if id in Ids(v) then v else [Waiting(id, true)] + v, Done)
    case Delete(id) => (Without(v, id), Deleted(id in Ids(v)))
    case Pop => if v == [] then (v, Popped(None)) else (v[1..], Popped(Some(v[0])))
    case Ask(id) => (v, Present(id in Ids(v)))
    case Count => (v, Counted(|v|))
  }

  ghost function PlainRun(ops: seq<QueueOp>): (seq<Waiting>, seq<Outcome>) {
    if ops == [] then ([], [])
    else
      var (v, outcomes) := PlainRun(ops[..|ops| - 1]);
      var (v', outcome) := PlainStep(v, ops[|ops| - 1]);
      (v', outcomes + [outcome])
  }

  /** One operation on the queue does what it does on the plain sequence. */
  method RunOp(q: RunnableQueue, op: QueueOp) returns (outcome: Outcome)
    requires q.Valid() && q.nextToken < U64_MAX
    modifies q
    ensures q.Valid() && q.nextToken <= old(q.nextToken) + 1
    ensures (q.Contents(), outcome) == PlainStep(old(q.Contents()), op)
  {
    hide QueueValid, View, Ids, Without;
    ViewIsExact(q.queue, q.queued, q.nextToken);
    match op
    case PushBack(id) => q.Enqueue(id); return Done;
    case PushFront(id) => q.EnqueueFront(id); return Done;
    case Delete(id) => var was := q.Remove(id); return Deleted(was);
    case Pop => var next := q.DequeueDetailed(); return Popped(next);
    case Ask(id) => var found := q.Contains(id); return Present(found);
    case Count => var n := q.Len(); return Counted(n);
  }

  /** Over any run, the queue with its stale entries answers as the plain sequence does. */
  method RunQueueOps(ops: seq<QueueOp>) returns (q: RunnableQueue, outcomes: seq<Outcome>)
    requires |ops| < U64_MAX
    ensures q.Valid() && (q.Contents(), outcomes) == PlainRun(ops)
  {
    hide QueueValid, View, PlainStep;
    q := new RunnableQueue();
    outcomes := [];
    for k := 0 to |ops|
      invariant fresh(q) && q.Valid() && q.nextToken <= k
      invariant (q.Contents(), outcomes) == PlainRun(ops[..k])
    {
      assert ops[..k + 1][..k] == ops[..k];
      var outcome := RunOp(q, ops[k]);
      outcomes := outcomes + [outcome];
    }
    assert ops[..|ops|] == ops;
  }

  /** A thread removed and queued again waits only at its new position. */
  lemma {:induction false} RequeueMoves(v: seq<Waiting>, id: ThreadId)
    ensures id !in Ids(Without(v, id))
    ensures PlainStep(PlainStep(v, Delete(id)).0, PushBack(id)).0 == Without(v, id) + [Waiting(id, false)]
  {
    if v != [] {
      RequeueMoves(v[1..], id);
      var rest := Without(v[1..], id);
      if v[0].id == id {
        assert Without(v, id) == rest;
      } else {
        assert Without(v, id)[1..] == rest;
      }
    }
  }
}
