/** The duty queue as a value, and what each of its lock-held sections does to that value. */
module QueueSpec {
  import opened Types
  import opened Duties
  import opened DelayHeaps

  // A handle on a trace context.
  type Context = nat

  // A duty that waits for the duties with the given ids to be acknowledged.
  datatype Waiting = Waiting(duty: Duty, on: set<Id>)

  datatype EvalStats = EvalStats(ready: int, unacked: int, blocked: int, waiting: int)

  datatype QueueState = QueueState(
    blocked: map<Id, Waiting>,
    dependents: map<Id, seq<Id>>,
    heap: map<Id, Entry<Duty>>,
    ready: seq<Duty>,
    unack: map<Id, Duty>,
    contexts: map<Id, Context>,
    stats: EvalStats)

  const EMPTY_QUEUE := QueueState(map[], map[], map[], [], map[], map[], EvalStats(0, 0, 0, 0))

  function Elements(ids: seq<Id>): set<Id> {
    set id | id in ids
  }

  // Each dependency is left with the given duty as its only dependent.
  function AddDependent(dependents: map<Id, seq<Id>>, deps: seq<Id>, id: Id): map<Id, seq<Id>> {
    if deps == [] then dependents
    else AddDependent(dependents, deps[..|deps| - 1], id)[deps[|deps| - 1] := [id]]
  }

  lemma {:induction false} AddDependentHas(dependents: map<Id, seq<Id>>, deps: seq<Id>, id: Id, dep: Id)
    ensures dep in AddDependent(dependents, deps, id) <==> dep in dependents || dep in deps
    ensures dep in AddDependent(dependents, deps, id) ==>
      AddDependent(dependents, deps, id)[dep] == if dep in deps then [id] else dependents[dep]
  {
    if deps != [] {
      var n := |deps| - 1;
      AddDependentHas(dependents, deps[..n], id, dep);
      assert deps == deps[..n] + [deps[n]];
    }
  }

  // A push of an id that is already in the heap fails, and the failure is ignored.
  function Schedule(heap: map<Id, Entry<Duty>>, duty: Duty): map<Id, Entry<Duty>> {
    if duty.spec.id in heap then heap else heap[duty.spec.id := Entry(duty, duty.spec.activeTime)]
  }

  function EnqueueOne(q: QueueState, ctx: Context, duty: Duty): QueueState {
    var id, deps := duty.spec.id, duty.spec.blockedBy;
    if deps != [] then
      q.(blocked := q.blocked[id := Waiting(duty, Elements(deps))],
         dependents := AddDependent(q.dependents, deps, id),
         contexts := q.contexts[id := ctx],
         stats := q.stats.(blocked := q.stats.blocked + |deps|))
    else
      q.(heap := Schedule(q.heap, duty),
         contexts := q.contexts[id := ctx],
         stats := q.stats.(waiting := q.stats.waiting + 1))
  }

  function Enqueue(q: QueueState, ctx: Context, duties: seq<Duty>): QueueState {
    if duties == [] then q
    else EnqueueOne(Enqueue(q, ctx, duties[..|duties| - 1]), ctx, duties[|duties| - 1])
  }

  // The timer case of the loop over the delay heap.
  function Fire(q: QueueState, duty: Duty): QueueState {
    q.(heap := q.heap - {duty.spec.id},
       ready := q.ready + [duty],
       stats := q.stats.(waiting := q.stats.waiting - 1, ready := q.stats.ready + 1))
  }

  datatype DequeueResult = Wait | ContextNotFound(id: Id) | Dequeued(duty: Duty, ctx: Context)

  // One attempt to dequeue: Wait means that there was nothing to take.
  function Dequeue(q: QueueState): (r: (QueueState, DequeueResult))
    ensures r.1 == Wait <==> q.ready == []
    ensures r.1 == Wait ==> r.0 == q
  {
    if q.ready == [] then (q, Wait)
    else
      var duty := q.ready[0];
      var id := duty.spec.id;
      var q1 := q.(ready := q.ready[1..], unack := q.unack[id := duty]);
      if id !in q.contexts then (q1, ContextNotFound(id))
      else
        var stats := q.stats.(unacked := q.stats.unacked + 1, ready := q.stats.ready - 1);
        (q1.(stats := stats), Dequeued(duty, q.contexts[id]))
  }

  datatype AckResult = Acked | NotFound | DependentNotFound(id: Id) | NotADependency(of: Id)

  function MoveToHeap(q: QueueState, id: Id): QueueState
    requires id in q.blocked
  {
    q.(blocked := q.blocked - {id},
       heap := Schedule(q.heap, q.blocked[id].duty),
       stats := q.stats.(blocked := q.stats.blocked - 1, waiting := q.stats.waiting + 1))
  }

  function ReleaseOne(q: QueueState, acked: Id, id: Id): QueueState
    requires id in q.blocked
  {
    var w := q.blocked[id].(on := q.blocked[id].on - {acked});
    var q1 := q.(blocked := q.blocked[id := w]);
    if w.on != {} then q1 else MoveToHeap(q1, id)
  }

  // Tells the dependents, in order, that a duty is done; an error cuts the loop short.
  function Release(q: QueueState, acked: Id, ids: seq<Id>): (QueueState, AckResult)
    decreases |ids|
  {
    if ids == [] then (q, Acked)
    else if ids[0] !in q.blocked then (q, DependentNotFound(ids[0]))
    else if acked !in q.blocked[ids[0]].on then (q, NotADependency(q.blocked[ids[0]].duty.spec.id))
    else Release(ReleaseOne(q, acked, ids[0]), acked, ids[1..])
  }

  lemma ReleaseOnlyOne(q: QueueState, acked: Id, id: Id)
    requires id in q.blocked && acked in q.blocked[id].on
    ensures Release(q, acked, [id]) == (ReleaseOne(q, acked, id), Acked)
  {
    assert [id][1..] == [];
    assert Release(ReleaseOne(q, acked, id), acked, []) == (ReleaseOne(q, acked, id), Acked);
  }

  function Retire(q: QueueState, id: Id): QueueState {
    q.(unack := q.unack - {id},
       contexts := q.contexts - {id},
       stats := q.stats.(unacked := q.stats.unacked - 1))
  }

  function Ack(q: QueueState, id: Id): (QueueState, AckResult) {
    if id !in q.unack then (q, NotFound)
    else Release(Retire(q, id), id, if id in q.dependents then q.dependents[id] else [])
  }
}
