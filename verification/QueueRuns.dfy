/**
 Runs of the duty queue: any interleaving of its lock-held sections. What follows here holds in every
 reachable state as long as no id is enqueued twice; dependencies may be shared, missing or circular.
 */
module QueueRuns {
  import opened Types
  import opened Duties
  import opened DelayHeaps
  import opened QueueSpec

  // The queue, the duty and deadline the timer was last armed with, and the time.
  datatype RunState = RunState(q: QueueState, armed: Option<Entry<Duty>>, now: Time)

  datatype Action =
    | EnqueueAction(ctx: Context, duties: seq<Duty>)
    | DequeueAction
    | AckAction(id: Id)
    | Tick(time: Time)
    | Arm(id: Id)
    | Disarm
    | FireAction

  const START := RunState(EMPTY_QUEUE, None, ZERO_TIME)

  // The timer is armed for an earliest duty, unless its time is zero. It does not fire before its deadline.
  ghost predicate Enabled(s: RunState, a: Action) {
    match a
    case EnqueueAction(_, _) => true
    case DequeueAction => s.q.ready != []
    case AckAction(_) => true
    case Tick(time) => s.now <= time
    case Arm(id) => IsEarliest(s.q.heap, id) && s.q.heap[id].waitUntil != ZERO_TIME
    case Disarm => forall id | id in s.q.heap :: s.q.heap[id].waitUntil == ZERO_TIME
    case FireAction => s.armed.Some? && s.armed.value.waitUntil <= s.now
  }

  ghost function Step(s: RunState, a: Action): RunState
    requires Enabled(s, a)
  {
    match a
    case EnqueueAction(ctx, duties) => s.(q := Enqueue(s.q, ctx, duties))
    case DequeueAction => s.(q := Dequeue(s.q).0)
    case AckAction(id) => s.(q := Ack(s.q, id).0)
    case Tick(time) => s.(now := time)
    case Arm(id) => s.(armed := Some(s.q.heap[id]))
    case Disarm => s.(armed := None)
    case FireAction => s.(q := Fire(s.q, s.armed.value.value), armed := None)
  }

  ghost predicate IsRun(run: seq<Action>)
    decreases |run|, 0
  {
    run == [] || (IsRun(run[..|run| - 1]) && Enabled(After(run[..|run| - 1]), run[|run| - 1]))
  }

  ghost function After(run: seq<Action>): RunState
    requires IsRun(run)
    decreases |run|, 1
  {
    if run == [] then START else Step(After(run[..|run| - 1]), run[|run| - 1])
  }

  // What has happened in a run: the duties enqueued, in order and by id; the ids acknowledged; and
  // the pairs (id, dep) such that dep was acknowledged after id was enqueued.
  datatype History = History(order: seq<Duty>, duties: map<Id, Duty>, acked: set<Id>, since: set<(Id, Id)>)

  function RecordOne(h: History, duty: Duty): History {
    h.(order := h.order + [duty], duties := h.duties[duty.spec.id := duty])
  }

  function RecordEnqueued(h: History, duties: seq<Duty>): History {
    if duties == [] then h
    else RecordOne(RecordEnqueued(h, duties[..|duties| - 1]), duties[|duties| - 1])
  }

  function RecordAcked(h: History, id: Id): History {
    h.(acked := h.acked + {id}, since := h.since + set other | other in h.duties :: (other, id))
  }

  function Advance(h: History, q: QueueState, a: Action): History {
    match a
    case EnqueueAction(_, duties) => RecordEnqueued(h, duties)
    case AckAction(id) => if id in q.unack then RecordAcked(h, id) else h
    case _ => h
  }

  ghost function HistoryOf(run: seq<Action>): History
    requires IsRun(run)
  {
    if run == [] then History([], map[], {}, {})
    else Advance(HistoryOf(run[..|run| - 1]), After(run[..|run| - 1]).q, run[|run| - 1])
  }

  ghost predicate DistinctIds(duties: seq<Duty>) {
    forall i, j | 0 <= i < j < |duties| :: duties[i].spec.id != duties[j].spec.id
  }

  function ReadyIds(q: QueueState): set<Id> {
    set duty | duty in q.ready :: duty.spec.id
  }

  // A duty that was enqueued and not acknowledged is in exactly one place, and only such duties are in any.
  ghost predicate ConservedAt(q: QueueState, h: History, id: Id) {
    var outstanding := id in h.duties && id !in h.acked;
    var blocked, waiting, ready, unacked := id in q.blocked, id in q.heap, id in ReadyIds(q), id in q.unack;
    && (outstanding <==> blocked || waiting || ready || unacked)
    && (blocked ==> !waiting && !ready && !unacked)
    && (waiting ==> !ready && !unacked)
    && (ready ==> !unacked)
    && (id in q.contexts <==> outstanding)
    && (id in h.acked ==> id in h.duties)
  }

  // The places hold the duties that were enqueued.
  ghost predicate IdentifiedAt(q: QueueState, h: History, id: Id) {
    && (id in h.duties ==> h.duties[id].spec.id == id)
    && (id in q.blocked ==> id in h.duties && q.blocked[id].duty == h.duties[id])
    && (id in q.heap ==> id in h.duties && q.heap[id] == Entry(h.duties[id], h.duties[id].spec.activeTime))
    && (id in q.unack ==> id in h.duties && q.unack[id] == h.duties[id])
  }

  ghost predicate Conserved(q: QueueState, h: History) {
    && (forall id :: ConservedAt(q, h, id))
    && (forall id :: IdentifiedAt(q, h, id))
    && (forall i | 0 <= i < |q.ready| :: q.ready[i].spec.id in h.duties && q.ready[i] == h.duties[q.ready[i].spec.id])
    && DistinctIds(q.ready)
  }

  // The dependent registered for an unacknowledged duty is blocked on it.
  ghost predicate Registered(q: QueueState, h: History, dep: Id) {
    dep in q.dependents ==>
      && |q.dependents[dep]| == 1
      && (dep !in h.acked ==> q.dependents[dep][0] in q.blocked && dep in q.blocked[q.dependents[dep][0]].on)
  }

  // A dependency of an enqueued duty is either still waited for or was acknowledged since.
  ghost predicate Accounted(q: QueueState, h: History, id: Id, dep: Id)
    requires id in h.duties
  {
    dep in h.duties[id].spec.blockedBy ==> (id, dep) in h.since || (id in q.blocked && dep in q.blocked[id].on)
  }

  ghost predicate DependenciesKept(q: QueueState, h: History) {
    && (forall dep :: Registered(q, h, dep))
    && (forall id, dep | id in h.duties :: Accounted(q, h, id, dep))
    && (forall id | id in q.blocked :: q.blocked[id].on != {})
    && (forall id, dep | id in q.blocked && dep in q.blocked[id].on :: dep in q.blocked[id].duty.spec.blockedBy)
  }

  // By how much the counter of blocked duties exceeds their number.
  function Excess(duties: seq<Duty>): int {
    if duties == [] then 0
    else
      var n := |duties[|duties| - 1].spec.blockedBy|;
      Excess(duties[..|duties| - 1]) + if n == 0 then 0 else n - 1
  }

  ghost predicate Counted(q: QueueState, h: History) {
    q.stats == EvalStats(|q.ready|, |q.unack|, |q.blocked| + Excess(h.order), |q.heap|)
  }

  // Enqueuing one duty with a new id.

  lemma EnqueueOneConserves(q: QueueState, h: History, ctx: Context, duty: Duty)
    requires Conserved(q, h) && duty.spec.id !in h.duties
    ensures Conserved(EnqueueOne(q, ctx, duty), RecordOne(h, duty))
  {
    hide ConservedAt, IdentifiedAt, AddDependent;
    forall id
      ensures ConservedAt(EnqueueOne(q, ctx, duty), RecordOne(h, duty), id)
      ensures IdentifiedAt(EnqueueOne(q, ctx, duty), RecordOne(h, duty), id)
    {
      EnqueueOneConservesAt(q, h, ctx, duty, id);
    }
  }

  lemma EnqueueOneConservesAt(q: QueueState, h: History, ctx: Context, duty: Duty, id: Id)
    requires ConservedAt(q, h, id) && IdentifiedAt(q, h, id) && duty.spec.id !in h.duties
    ensures ConservedAt(EnqueueOne(q, ctx, duty), RecordOne(h, duty), id)
    ensures IdentifiedAt(EnqueueOne(q, ctx, duty), RecordOne(h, duty), id)
  {
    var q' := EnqueueOne(q, ctx, duty);
    EnqueueOnePlaces(q, ctx, duty, id);
    hide EnqueueOne, ReadyIds;
    assert id == duty.spec.id ==> id !in q.heap;
  }

  // Where an id is after one duty was enqueued.
  lemma EnqueueOnePlaces(q: QueueState, ctx: Context, duty: Duty, id: Id)
    ensures var q' := EnqueueOne(q, ctx, duty);
      && ReadyIds(q') == ReadyIds(q) && q'.unack == q.unack
      && (id in q'.contexts <==> id in q.contexts || id == duty.spec.id)
      && (id in q'.blocked <==> id in q.blocked || (id == duty.spec.id && duty.spec.blockedBy != []))
      && (id in q'.heap <==> id in q.heap || (id == duty.spec.id && duty.spec.blockedBy == []))
      && (id in q'.blocked && id != duty.spec.id ==> q'.blocked[id] == q.blocked[id])
      && (id in q'.heap && id != duty.spec.id ==> q'.heap[id] == q.heap[id])
      && (id == duty.spec.id && duty.spec.blockedBy != [] ==> q'.blocked[id].duty == duty)
      && (id == duty.spec.id && duty.spec.blockedBy == [] && id !in q.heap ==>
            q'.heap[id] == Entry(duty, duty.spec.activeTime))
  {
    hide AddDependent, Elements;
  }

  lemma EnqueueOneAccounts(q: QueueState, h: History, ctx: Context, duty: Duty)
    requires Conserved(q, h) && DependenciesKept(q, h) && duty.spec.id !in h.duties
    ensures DependenciesKept(EnqueueOne(q, ctx, duty), RecordOne(h, duty))
  {
    var q', h' := EnqueueOne(q, ctx, duty), RecordOne(h, duty);
    assert ConservedAt(q, h, duty.spec.id);
    forall dep ensures Registered(q', h', dep) {
      assert Registered(q, h, dep);
      AddDependentHas(q.dependents, duty.spec.blockedBy, duty.spec.id, dep);
    }
    forall id, dep | id in h'.duties ensures Accounted(q', h', id, dep) {
      if id != duty.spec.id {
        assert Accounted(q, h, id, dep);
      }
    }
    if duty.spec.blockedBy != [] {
      assert duty.spec.blockedBy[0] in q'.blocked[duty.spec.id].on;
    }
  }

  lemma EnqueueOneCounts(q: QueueState, h: History, ctx: Context, duty: Duty)
    requires Conserved(q, h) && Counted(q, h) && duty.spec.id !in h.duties
    ensures Counted(EnqueueOne(q, ctx, duty), RecordOne(h, duty))
  {
    assert ConservedAt(q, h, duty.spec.id);
    assert RecordOne(h, duty).order[..|h.order|] == h.order;
  }

  // The timer case, for a duty that is in the heap.

  lemma ReadyAfterFire(q: QueueState, duty: Duty)
    ensures ReadyIds(Fire(q, duty)) == ReadyIds(q) + {duty.spec.id}
  {
    var ready := Fire(q, duty).ready;
    assert ready[|q.ready|] == duty;
    assert forall other | other in q.ready :: other in ready;
  }

  lemma FireConserves(q: QueueState, h: History, id: Id)
    requires Conserved(q, h) && id in q.heap
    ensures Conserved(Fire(q, q.heap[id].value), h)
  {
    assert ConservedAt(q, h, id) && IdentifiedAt(q, h, id);
    var q' := Fire(q, q.heap[id].value);
    ReadyAfterFire(q, q.heap[id].value);
    forall other ensures ConservedAt(q', h, other) && IdentifiedAt(q', h, other) {
      assert ConservedAt(q, h, other) && IdentifiedAt(q, h, other);
    }
    forall i | 0 <= i < |q.ready| ensures q.ready[i].spec.id != id {
      assert q.ready[i].spec.id in ReadyIds(q);
    }
  }

  lemma FireCounts(q: QueueState, h: History, id: Id)
    requires Conserved(q, h) && Counted(q, h) && id in q.heap
    ensures Counted(Fire(q, q.heap[id].value), h)
  {
    assert IdentifiedAt(q, h, id);
  }

  lemma FireAccounts(q: QueueState, h: History, duty: Duty)
    requires DependenciesKept(q, h)
    ensures DependenciesKept(Fire(q, duty), h)
  {
    SameBlockedAccounts(q, Fire(q, duty), h);
  }

  lemma SameBlockedAccounts(q: QueueState, q': QueueState, h: History)
    requires DependenciesKept(q, h) && q'.blocked == q.blocked && q'.dependents == q.dependents
    ensures DependenciesKept(q', h)
  {
    forall dep ensures Registered(q', h, dep) {
      assert Registered(q, h, dep);
    }
    forall id, dep | id in h.duties ensures Accounted(q', h, id, dep) {
      assert Accounted(q, h, id, dep);
    }
  }

  // Dequeuing, when something is ready.

  lemma ReadyAfterDequeue(q: QueueState)
    requires q.ready != [] && DistinctIds(q.ready)
    ensures ReadyIds(Dequeue(q).0) == ReadyIds(q) - {q.ready[0].spec.id}
  {
    var rest := q.ready[1..];
    assert forall i | 0 < i < |q.ready| :: q.ready[i] == rest[i - 1];
  }

  lemma DequeueFindsContext(q: QueueState, h: History)
    requires Conserved(q, h) && q.ready != []
    ensures Dequeue(q).1.Dequeued? && Dequeue(q).1.duty == q.ready[0]
  {
    assert q.ready[0].spec.id in ReadyIds(q);
    assert ConservedAt(q, h, q.ready[0].spec.id);
  }

  lemma DequeueConserves(q: QueueState, h: History)
    requires Conserved(q, h) && q.ready != []
    ensures Conserved(Dequeue(q).0, h)
  {
    DequeueFindsContext(q, h);
    ReadyAfterDequeue(q);
    var q' := Dequeue(q).0;
    assert q.ready[0].spec.id in ReadyIds(q);
    forall id ensures ConservedAt(q', h, id) && IdentifiedAt(q', h, id) {
      assert ConservedAt(q, h, id) && IdentifiedAt(q, h, id);
    }
  }

  lemma DequeueCounts(q: QueueState, h: History)
    requires Conserved(q, h) && Counted(q, h) && q.ready != []
    ensures Counted(Dequeue(q).0, h)
  {
    DequeueFindsContext(q, h);
    assert q.ready[0].spec.id in ReadyIds(q);
    assert ConservedAt(q, h, q.ready[0].spec.id);
  }

  // Acknowledging: the duty is retired, and then its dependent is told.

  lemma RetireConserves(q: QueueState, h: History, id: Id)
    requires Conserved(q, h) && id in q.unack
    ensures Conserved(Retire(q, id), RecordAcked(h, id))
  {
    var q', h' := Retire(q, id), RecordAcked(h, id);
    assert ConservedAt(q, h, id);
    forall other ensures ConservedAt(q', h', other) && IdentifiedAt(q', h', other) {
      assert ConservedAt(q, h, other) && IdentifiedAt(q, h, other);
    }
  }

  lemma RetireAccounts(q: QueueState, h: History, id: Id)
    requires DependenciesKept(q, h)
    ensures DependenciesKept(Retire(q, id), RecordAcked(h, id))
  {
    var q', h' := Retire(q, id), RecordAcked(h, id);
    forall dep ensures Registered(q', h', dep) {
      assert Registered(q, h, dep);
    }
    forall other, dep | other in h'.duties ensures Accounted(q', h', other, dep) {
      assert Accounted(q, h, other, dep);
    }
  }

  lemma ReleaseOneConserves(q: QueueState, h: History, acked: Id, id: Id)
    requires Conserved(q, h) && id in q.blocked
    ensures Conserved(ReleaseOne(q, acked, id), h)
  {
    var q' := ReleaseOne(q, acked, id);
    assert ConservedAt(q, h, id) && IdentifiedAt(q, h, id);
    forall other ensures ConservedAt(q', h, other) && IdentifiedAt(q', h, other) {
      assert ConservedAt(q, h, other) && IdentifiedAt(q, h, other);
    }
  }

  lemma ReleaseOneAccounts(q: QueueState, h: History, acked: Id, id: Id)
    requires Conserved(q, h) && DependenciesKept(q, h)
    requires id in q.blocked && acked in h.acked && (id, acked) in h.since
    ensures DependenciesKept(ReleaseOne(q, acked, id), h)
  {
    var q' := ReleaseOne(q, acked, id);
    assert forall dep | dep in q.blocked[id].on && dep != acked :: dep in q.blocked[id].on - {acked};
    forall dep ensures Registered(q', h, dep) {
      assert Registered(q, h, dep);
    }
    forall other, dep | other in h.duties ensures Accounted(q', h, other, dep) {
      assert Accounted(q, h, other, dep);
    }
  }

  lemma MoveToHeapCounts(q: QueueState, h: History, id: Id)
    requires Counted(q, h) && id in q.blocked && q.blocked[id].duty.spec.id !in q.heap
    ensures Counted(MoveToHeap(q, id), h)
  {
    assert MoveToHeap(q, id).blocked.Keys == q.blocked.Keys - {id};
  }

  lemma ReleaseOneCounts(q: QueueState, h: History, acked: Id, id: Id)
    requires Conserved(q, h) && Counted(q, h) && id in q.blocked
    ensures Counted(ReleaseOne(q, acked, id), h)
  {
    assert ConservedAt(q, h, id) && IdentifiedAt(q, h, id);
    hide Conserved;
    var w := q.blocked[id].(on := q.blocked[id].on - {acked});
    var q1 := q.(blocked := q.blocked[id := w]);
    assert q1.blocked.Keys == q.blocked.Keys;
    assert Counted(q1, h);
    MoveToHeapCounts(q1, h, id);
  }

  // Runs.

  ghost predicate Recorded(h: History) {
    && (forall duty | duty in h.order :: duty.spec.id in h.duties && h.duties[duty.spec.id] == duty)
    && (forall id | id in h.duties :: h.duties[id] in h.order && h.duties[id].spec.id == id)
  }

  ghost predicate QueueInv(q: QueueState, h: History) {
    && Conserved(q, h) && DependenciesKept(q, h) && Counted(q, h)
    && Recorded(h)
  }

  // The duty the timer is armed for is still in the heap, and nothing has left the heap early.
  ghost predicate OnTime(s: RunState) {
    && (s.armed.Some? ==>
          && s.armed.value.waitUntil != ZERO_TIME
          && s.armed.value.value.spec.id in s.q.heap
          && s.q.heap[s.armed.value.value.spec.id] == s.armed.value)
    && (forall duty | duty in s.q.ready :: duty.spec.activeTime <= s.now)
    && (forall id | id in s.q.unack :: s.q.unack[id].spec.activeTime <= s.now)
  }

  lemma RecordOneKeeps(h: History, duty: Duty)
    requires Recorded(h) && DistinctIds(h.order + [duty])
    ensures duty.spec.id !in h.duties && Recorded(RecordOne(h, duty))
  {
    forall other | other in h.order ensures other.spec.id != duty.spec.id {
      var i :| 0 <= i < |h.order| && h.order[i] == other;
      assert (h.order + [duty])[i] == other && (h.order + [duty])[|h.order|] == duty;
    }
  }

  lemma EnqueueOneKeeps(q: QueueState, h: History, ctx: Context, duty: Duty)
    requires QueueInv(q, h) && DistinctIds(h.order + [duty])
    ensures QueueInv(EnqueueOne(q, ctx, duty), RecordOne(h, duty))
  {
    hide Conserved, DependenciesKept, Counted, Recorded, EnqueueOne, RecordOne;
    RecordOneKeeps(h, duty);
    EnqueueOneConserves(q, h, ctx, duty);
    EnqueueOneAccounts(q, h, ctx, duty);
    EnqueueOneCounts(q, h, ctx, duty);
  }

  lemma {:induction false} EnqueueKeeps(q: QueueState, h: History, ctx: Context, duties: seq<Duty>)
    requires QueueInv(q, h) && DistinctIds(h.order + duties)
    ensures QueueInv(Enqueue(q, ctx, duties), RecordEnqueued(h, duties))
    ensures RecordEnqueued(h, duties).order == h.order + duties
  {
    hide QueueInv;
    if duties != [] {
      var n := |duties| - 1;
      var first := h.order + duties[..n];
      assert h.order + duties == first + [duties[n]];
      DistinctPrefix(first, [duties[n]]);
      EnqueueKeeps(q, h, ctx, duties[..n]);
      EnqueueOneKeeps(Enqueue(q, ctx, duties[..n]), RecordEnqueued(h, duties[..n]), ctx, duties[n]);
    }
  }

  lemma DistinctPrefix(duties: seq<Duty>, more: seq<Duty>)
    requires DistinctIds(duties + more)
    ensures DistinctIds(duties)
  {
    forall i, j | 0 <= i < j < |duties| ensures duties[i].spec.id != duties[j].spec.id {
      assert (duties + more)[i] == duties[i] && (duties + more)[j] == duties[j];
    }
  }

  lemma RetireKeeps(q: QueueState, h: History, id: Id)
    requires QueueInv(q, h) && id in q.unack
    ensures QueueInv(Retire(q, id), RecordAcked(h, id))
  {
    RetireConserves(q, h, id);
    RetireAccounts(q, h, id);
    hide Conserved, DependenciesKept;
  }

  lemma ReleaseOneKeeps(q: QueueState, h: History, acked: Id, id: Id)
    requires QueueInv(q, h) && id in q.blocked && acked in h.acked && (id, acked) in h.since
    ensures QueueInv(ReleaseOne(q, acked, id), h)
  {
    hide Conserved, DependenciesKept, Counted;
    ReleaseOneConserves(q, h, acked, id);
    ReleaseOneAccounts(q, h, acked, id);
    ReleaseOneCounts(q, h, acked, id);
  }

  // The one dependent of an unacknowledged duty can be told that the duty is done.
  lemma DependentFound(q: QueueState, h: History, id: Id)
    requires QueueInv(q, h) && id in q.unack && id in q.dependents
    ensures |q.dependents[id]| == 1
    ensures var x := q.dependents[id][0]; x in q.blocked && id in q.blocked[x].on && x in h.duties
  {
    assert Registered(q, h, id) && ConservedAt(q, h, id) && IdentifiedAt(q, h, q.dependents[id][0]);
  }

  // Neither of the two error returns inside the loop of Ack is ever taken.
  lemma AckSucceeds(q: QueueState, h: History, id: Id)
    requires QueueInv(q, h) && id in q.unack
    ensures Ack(q, id).1 == Acked
    ensures id !in q.dependents ==> Ack(q, id).0 == Retire(q, id)
    ensures id in q.dependents ==>
      q.dependents[id] != [] && q.dependents[id][0] in q.blocked
      && Ack(q, id).0 == ReleaseOne(Retire(q, id), id, q.dependents[id][0])
  {
    if id in q.dependents {
      DependentFound(q, h, id);
      hide QueueInv;
      assert q.dependents[id] == [q.dependents[id][0]];
      ReleaseOnlyOne(Retire(q, id), id, q.dependents[id][0]);
    }
  }

  lemma AckKeeps(q: QueueState, h: History, id: Id)
    requires QueueInv(q, h) && id in q.unack
    ensures QueueInv(Ack(q, id).0, RecordAcked(h, id))
  {
    hide QueueInv;
    AckSucceeds(q, h, id);
    RetireKeeps(q, h, id);
    if id in q.dependents {
      DependentFound(q, h, id);
      ReleaseOneKeeps(Retire(q, id), RecordAcked(h, id), id, q.dependents[id][0]);
    }
  }

  ghost predicate HeapKept(q: QueueState, q': QueueState) {
    q'.ready == q.ready && forall id | id in q.heap :: id in q'.heap && q'.heap[id] == q.heap[id]
  }

  lemma {:induction false} EnqueueKeepsHeap(q: QueueState, ctx: Context, duties: seq<Duty>)
    ensures HeapKept(q, Enqueue(q, ctx, duties)) && Enqueue(q, ctx, duties).unack == q.unack
  {
    if duties != [] {
      EnqueueKeepsHeap(q, ctx, duties[..|duties| - 1]);
    }
  }

  lemma {:induction false} ReleaseKeepsHeap(q: QueueState, acked: Id, ids: seq<Id>)
    ensures HeapKept(q, Release(q, acked, ids).0) && Release(q, acked, ids).0.unack == q.unack
    decreases |ids|
  {
    if ids != [] && ids[0] in q.blocked && acked in q.blocked[ids[0]].on {
      ReleaseKeepsHeap(ReleaseOne(q, acked, ids[0]), acked, ids[1..]);
    }
  }

  lemma AckOutcome(q: QueueState, id: Id)
    ensures HeapKept(q, Ack(q, id).0) && Ack(q, id).0.unack == q.unack - {id}
  {
    if id in q.unack {
      ReleaseKeepsHeap(Retire(q, id), id, if id in q.dependents then q.dependents[id] else []);
    } else {
      assert q.unack - {id} == q.unack;
    }
  }

  lemma StepStaysOnTime(s: RunState, h: History, a: Action)
    requires QueueInv(s.q, h) && OnTime(s) && Enabled(s, a)
    ensures OnTime(Step(s, a))
  {
    match a
    case EnqueueAction(ctx, duties) =>
      EnqueueKeepsHeap(s.q, ctx, duties);
    case AckAction(id) =>
      AckOutcome(s.q, id);
    case DequeueAction =>
      DequeueFindsContext(s.q, h);
    case Arm(id) =>
      assert IdentifiedAt(s.q, h, id);
    case FireAction =>
      assert IdentifiedAt(s.q, h, s.armed.value.value.spec.id);
    case _ =>
  }

  lemma StepKeepsQueueInv(s: RunState, h: History, a: Action)
    requires QueueInv(s.q, h) && OnTime(s) && Enabled(s, a)
    requires DistinctIds(Advance(h, s.q, a).order)
    ensures QueueInv(Step(s, a).q, Advance(h, s.q, a))
  {
    match a
    case EnqueueAction(ctx, duties) =>
      RecordedInOrder(h, duties);
      hide QueueInv;
      EnqueueKeeps(s.q, h, ctx, duties);
    case AckAction(id) =>
      hide QueueInv;
      if id in s.q.unack {
        AckKeeps(s.q, h, id);
      }
    case DequeueAction =>
      DequeueConserves(s.q, h);
      DequeueCounts(s.q, h);
      DequeueFindsContext(s.q, h);
      SameBlockedAccounts(s.q, Dequeue(s.q).0, h);
    case FireAction =>
      var id := s.armed.value.value.spec.id;
      FireConserves(s.q, h, id);
      FireCounts(s.q, h, id);
      FireAccounts(s.q, h, s.armed.value.value);
    case _ =>
  }

  lemma {:induction false} RecordedInOrder(h: History, duties: seq<Duty>)
    ensures RecordEnqueued(h, duties).order == h.order + duties
  {
    if duties != [] {
      RecordedInOrder(h, duties[..|duties| - 1]);
      assert duties == duties[..|duties| - 1] + [duties[|duties| - 1]];
    }
  }

  // The order only grows along a run.
  lemma OrderGrows(h: History, q: QueueState, a: Action)
    ensures DistinctIds(Advance(h, q, a).order) ==> DistinctIds(h.order)
  {
    match a
    case EnqueueAction(_, duties) =>
      RecordedInOrder(h, duties);
      if DistinctIds(h.order + duties) {
        DistinctPrefix(h.order, duties);
      }
    case _ =>
  }

  // All duties that a run enqueues, in order.
  function EnqueuedDuties(run: seq<Action>): seq<Duty> {
    if run == [] then []
    else
      var a := run[|run| - 1];
      EnqueuedDuties(run[..|run| - 1]) + if a.EnqueueAction? then a.duties else []
  }

  // A run that enqueues no id twice.
  ghost predicate Orderly(run: seq<Action>) {
    IsRun(run) && DistinctIds(EnqueuedDuties(run))
  }

  lemma {:induction false} OrderIsRecorded(run: seq<Action>)
    requires IsRun(run)
    ensures HistoryOf(run).order == EnqueuedDuties(run)
  {
    if run != [] {
      var a := run[|run| - 1];
      OrderIsRecorded(run[..|run| - 1]);
      if a.EnqueueAction? {
        RecordedInOrder(HistoryOf(run[..|run| - 1]), a.duties);
      }
    }
  }

  // The invariant of the queue holds in every reachable state.
  lemma {:induction false} Reachable(run: seq<Action>)
    requires Orderly(run)
    ensures QueueInv(After(run).q, HistoryOf(run)) && OnTime(After(run))
    ensures HistoryOf(run).order == EnqueuedDuties(run)
  {
    OrderIsRecorded(run);
    if run == [] {
      assert Excess([]) == 0;
    } else {
      var before, a := run[..|run| - 1], run[|run| - 1];
      hide QueueInv, OnTime;
      OrderGrows(HistoryOf(before), After(before).q, a);
      OrderIsRecorded(before);
      Reachable(before);
      StepKeepsQueueInv(After(before), HistoryOf(before), a);
      StepStaysOnTime(After(before), HistoryOf(before), a);
    }
  }
}
