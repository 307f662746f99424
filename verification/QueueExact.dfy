/** Exactly which batches of duties the queue can drain. */
module QueueExact {
  import opened Types
  import opened Duties
  import opened QueueSpec
  import opened QueueRuns
  import opened QueueSafety
  import opened QueueDrain
  import opened QueueProgress

  // A duty with a zero active time never leaves the heap.

  ghost predicate StaysUntimed(q: QueueState, h: History, id: Id) {
    id in h.duties && h.duties[id].spec.activeTime == ZERO_TIME ==>
      id !in h.acked && id !in q.unack && id !in ReadyIds(q)
  }

  lemma EnqueueStaysUntimed(q: QueueState, h: History, ctx: Context, duties: seq<Duty>, id: Id)
    requires QueueInv(q, h) && StaysUntimed(q, h, id)
    requires QueueInv(Enqueue(q, ctx, duties), RecordEnqueued(h, duties))
    ensures StaysUntimed(Enqueue(q, ctx, duties), RecordEnqueued(h, duties), id)
  {
    assert ConservedAt(q, h, id);
    EnqueueKeepsHeap(q, ctx, duties);
    RecordingKeeps(h, duties);
    if id in h.duties {
      RecordedDutyStays(q, h, ctx, duties, id);
    }
    hide QueueInv, Enqueue, RecordEnqueued;
    assert ReadyIds(Enqueue(q, ctx, duties)) == ReadyIds(q);
  }

  lemma AckStaysUntimed(q: QueueState, h: History, acked: Id, id: Id)
    requires StaysUntimed(q, h, id) && acked in q.unack
    requires QueueInv(q, h)
    ensures StaysUntimed(Ack(q, acked).0, RecordAcked(h, acked), id)
  {
    hide Ack;
    assert IdentifiedAt(q, h, acked);
    AckOutcome(q, acked);
    hide QueueInv;
    assert ReadyIds(Ack(q, acked).0) == ReadyIds(q);
  }

  lemma DequeueStaysUntimed(q: QueueState, h: History, id: Id)
    requires QueueInv(q, h) && StaysUntimed(q, h, id) && q.ready != []
    ensures StaysUntimed(Dequeue(q).0, h, id)
  {
    DequeueFindsContext(q, h);
    ReadyAfterDequeue(q);
    hide QueueInv;
    assert q.ready[0].spec.id in ReadyIds(q);
  }

  lemma FireStaysUntimed(s: RunState, h: History, id: Id)
    requires QueueInv(s.q, h) && OnTime(s) && StaysUntimed(s.q, h, id) && s.armed.Some?
    ensures StaysUntimed(Fire(s.q, s.armed.value.value), h, id)
  {
    assert IdentifiedAt(s.q, h, s.armed.value.value.spec.id);
    hide QueueInv;
    ReadyAfterFire(s.q, s.armed.value.value);
  }

  lemma StepStaysUntimed(s: RunState, h: History, a: Action, id: Id)
    requires QueueInv(s.q, h) && OnTime(s) && StaysUntimed(s.q, h, id) && Enabled(s, a)
    requires QueueInv(Step(s, a).q, Advance(h, s.q, a))
    ensures StaysUntimed(Step(s, a).q, Advance(h, s.q, a), id)
  {
    hide QueueInv, OnTime, StaysUntimed;
    match a
    case EnqueueAction(ctx, duties) => EnqueueStaysUntimed(s.q, h, ctx, duties, id);
    case AckAction(acked) =>
      if acked in s.q.unack {
        AckStaysUntimed(s.q, h, acked, id);
      }
    case DequeueAction => DequeueStaysUntimed(s.q, h, id);
    case FireAction => FireStaysUntimed(s, h, id);
    case _ =>
  }

  lemma RecordedDutyStays(q: QueueState, h: History, ctx: Context, duties: seq<Duty>, id: Id)
    requires id in h.duties && Recorded(h)
    requires QueueInv(Enqueue(q, ctx, duties), RecordEnqueued(h, duties))
    ensures id in RecordEnqueued(h, duties).duties && RecordEnqueued(h, duties).duties[id] == h.duties[id]
  {
    RecordedInOrder(h, duties);
    assert h.duties[id] in h.order + duties;
  }

  lemma {:induction false} NeverUntimed(run: seq<Action>, id: Id)
    requires Orderly(run)
    ensures StaysUntimed(After(run).q, HistoryOf(run), id)
  {
    if run != [] {
      var n := |run| - 1;
      var before, a := run[..n], run[n];
      DistinctPrefix(EnqueuedDuties(before), if a.EnqueueAction? then a.duties else []);
      NeverUntimed(before, id);
      Reachable(before);
      Reachable(run);
      hide QueueInv, OnTime, StaysUntimed;
      StepStaysUntimed(After(before), HistoryOf(before), a, id);
    }
  }

  // An id is acknowledged at one step at most.
  lemma AckedOnce(run: seq<Action>, i: nat, j: nat, id: Id)
    requires Orderly(run) && i < j < |run| && IsRun(run[..i]) && IsRun(run[..j]) && AckedAt(run, i, id)
    ensures !AckedAt(run, j, id)
  {
    assert run[..j][..i] == run[..i];
    assert AckedAt(run[..j], i, id);
    AcknowledgedMeans(run[..j], id);
    OrderlyPrefix(run, j);
    Reachable(run[..j]);
    assert ConservedAt(After(run[..j]).q, HistoryOf(run[..j]), id);
  }

  // When a duty is acknowledged, its dependencies were acknowledged before.
  lemma DependencyAckedEarlier(run: seq<Action>, duty: Duty, dep: Id, i: nat, j: nat)
    requires Orderly(run) && duty in EnqueuedDuties(run) && dep in duty.spec.blockedBy
    requires j < |run| && IsRun(run[..j]) && AckedAt(run, j, duty.spec.id)
    requires i < |run| && IsRun(run[..i]) && AckedAt(run, i, dep)
    ensures i < j
  {
    UnackedIsReleased(run, duty, j);
    DependencySafety(run[..j], duty.spec.id, duty);
    hide Released, EnqueuedDuties, After, HistoryOf, AcknowledgedSince;
    var l := SinceInPrefix(run, j, duty.spec.id, dep);
    if i > l {
      AckedOnce(run, l, i, dep);
    }
  }

  lemma SinceInPrefix(run: seq<Action>, j: nat, id: Id, dep: Id) returns (l: nat)
    requires IsRun(run) && j < |run| && AcknowledgedSince(run[..j], id, dep)
    ensures l < j && IsRun(run[..l]) && AckedAt(run, l, dep)
  {
    var k: nat;
    k, l :| k < l < j && IsRun(run[..j][..l]) && EnqueuedAt(run[..j], k, id) && AckedAt(run[..j], l, dep);
    assert run[..l] == run[..j][..l];
  }

  lemma UnackedIsReleased(run: seq<Action>, duty: Duty, j: nat)
    requires Orderly(run) && duty in EnqueuedDuties(run)
    requires j < |run| && IsRun(run[..j]) && AckedAt(run, j, duty.spec.id)
    ensures Orderly(run[..j]) && Released(After(run[..j]).q, duty.spec.id, duty)
  {
    OrderlyPrefix(run, j);
    Reachable(run);
    Reachable(run[..j]);
    assert IdentifiedAt(After(run[..j]).q, HistoryOf(run[..j]), duty.spec.id);
    hide Conserved, DependenciesKept, Counted;
    HistoryGrows(run, j, duty.spec.id);
  }

  lemma HistoryGrowsByOne(run: seq<Action>, id: Id)
    requires Orderly(run) && run != [] && id in HistoryOf(run[..|run| - 1]).duties
    ensures id in HistoryOf(run).duties && HistoryOf(run).duties[id] == HistoryOf(run[..|run| - 1]).duties[id]
  {
    var last := |run| - 1;
    OrderlyPrefix(run, last);
    Reachable(run[..last]);
    Reachable(run);
    if run[last].EnqueueAction? {
      RecordedDutyStays(After(run[..last]).q, HistoryOf(run[..last]), run[last].ctx, run[last].duties, id);
    }
  }

  lemma {:induction false} HistoryGrows(run: seq<Action>, n: nat, id: Id)
    requires Orderly(run) && n <= |run| && IsRun(run[..n]) && id in HistoryOf(run[..n]).duties
    ensures id in HistoryOf(run).duties && HistoryOf(run).duties[id] == HistoryOf(run[..n]).duties[id]
  {
    if n < |run| {
      var last := |run| - 1;
      assert run[..last][..n] == run[..n];
      OrderlyPrefix(run, last);
      hide HistoryOf, DistinctIds, IsRun;
      HistoryGrows(run[..last], n, id);
      HistoryGrowsByOne(run, id);
    } else {
      assert run[..n] == run;
    }
  }

  // What a run that empties the queue says about what it enqueued.

  lemma EmptiedMeansAcknowledged(run: seq<Action>, duty: Duty)
    requires Orderly(run) && Emptied(After(run).q) && duty in EnqueuedDuties(run)
    ensures Acknowledged(run, duty.spec.id) && duty.spec.activeTime != ZERO_TIME
    ensures forall dep | dep in duty.spec.blockedBy :: Acknowledged(run, dep)
  {
    var q, h, id := After(run).q, HistoryOf(run), duty.spec.id;
    Reachable(run);
    assert ConservedAt(q, h, id);
    AcknowledgedMeans(run, id);
    NeverUntimed(run, id);
    forall dep | dep in duty.spec.blockedBy ensures Acknowledged(run, dep) {
      assert Accounted(q, h, id, dep);
      SinceMeans(run, id, dep);
    }
  }

  lemma EmptiedMeansClosed(run: seq<Action>)
    requires Orderly(run) && Emptied(After(run).q)
    ensures Closed(EnqueuedDuties(run)) && Timed(EnqueuedDuties(run))
  {
    var duties := EnqueuedDuties(run);
    forall duty | duty in duties ensures duty.spec.activeTime != ZERO_TIME {
      EmptiedMeansAcknowledged(run, duty);
    }
    forall duty, dep | duty in duties && dep in duty.spec.blockedBy ensures InBatch(duties, dep) {
      EmptiedMeansAcknowledged(run, duty);
      AcknowledgedMeans(run, dep);
      Reachable(run);
      assert ConservedAt(After(run).q, HistoryOf(run), dep);
    }
  }

  // The step at which an id is acknowledged.
  ghost function AckStep(run: seq<Action>, id: Id): (j: nat)
    requires Acknowledged(run, id)
    ensures j < |run| && IsRun(run[..j]) && AckedAt(run, j, id)
  {
    var j: nat :| j < |run| && IsRun(run[..j]) && AckedAt(run, j, id);
    j
  }

  // The steps at which the given duties are acknowledged.
  ghost function AckSteps(run: seq<Action>, duties: seq<Duty>): (rank: map<Id, nat>)
    requires forall duty | duty in duties :: Acknowledged(run, duty.spec.id)
    ensures forall id :: id in rank <==> InBatch(duties, id)
    ensures forall id | id in rank :: Acknowledged(run, id) && rank[id] == AckStep(run, id)
  {
    if duties == [] then map[]
    else
      var n := |duties| - 1;
      assert duties == duties[..n] + [duties[n]];
      AckSteps(run, duties[..n])[duties[n].spec.id := AckStep(run, duties[n].spec.id)]
  }

  // The order of acknowledgement ranks the duties.
  lemma EmptiedMeansAcyclic(run: seq<Action>)
    requires Orderly(run) && Emptied(After(run).q)
    ensures Acyclic(EnqueuedDuties(run))
  {
    var duties := EnqueuedDuties(run);
    EmptiedMeansClosed(run);
    forall duty | duty in duties ensures Acknowledged(run, duty.spec.id) {
      EmptiedMeansAcknowledged(run, duty);
    }
    var rank := AckSteps(run, duties);
    forall duty, dep | duty in duties && dep in duty.spec.blockedBy
      ensures duty.spec.id in rank && dep in rank && rank[dep] < rank[duty.spec.id]
    {
      assert InBatch(duties, dep);
      assert InBatch(duties, duty.spec.id);
      DependencyAckedEarlier(run, duty, dep, AckStep(run, dep), AckStep(run, duty.spec.id));
    }
    assert RankedBy(duties, rank);
  }

  // A batch with distinct ids, enqueued into an empty queue, can be drained exactly when its dependencies
  // are in the batch, form no cycle and are not shared, and no active time is zero.
  lemma DrainsExactlyWhenDrainable(run: seq<Action>, ctx: Context, duties: seq<Duty>)
    requires run == [EnqueueAction(ctx, duties)] && DistinctIds(duties)
    ensures Drainable(duties) <==> exists steps ::
      NoEnqueues(steps) && IsRun(run + steps) && Emptied(After(run + steps).q)
  {
    if Drainable(duties) {
      var steps := UnsharedDrains(run, ctx, duties);
    }
    forall steps | NoEnqueues(steps) && IsRun(run + steps) && Emptied(After(run + steps).q) ensures Drainable(duties) {
      EmptiedMeansDrainable(run, ctx, duties, steps);
    }
  }

  lemma EmptiedMeansDrainable(run: seq<Action>, ctx: Context, duties: seq<Duty>, steps: seq<Action>)
    requires run == [EnqueueAction(ctx, duties)] && DistinctIds(duties)
    requires NoEnqueues(steps) && IsRun(run + steps) && Emptied(After(run + steps).q)
    ensures Drainable(duties)
  {
    OneBatch(ctx, duties);
    AppendingEnqueuesNothing(run, steps);
    hide IsRun, After, Emptied, NoEnqueues, EnqueuedDuties, DistinctIds, Acyclic, Closed, Timed;
    EmptiedMeansClosed(run + steps);
    EmptiedMeansAcyclic(run + steps);
    if i: nat, j: nat, dep :| Share(duties, i, j, dep) {
      SharedNeverDrains(run, ctx, duties, i, j, dep, steps);
    }
  }

  // Exactly which reachable states of the queue can be emptied.

  // A dependency that is waited for has a dependent registered, whichever it is.
  ghost predicate HasDependent(q: QueueState, id: Id, dep: Id) {
    id in q.blocked && dep in q.blocked[id].on ==> dep in q.dependents
  }

  lemma {:induction false} EnqueueKeepsDependents(q: QueueState, ctx: Context, duties: seq<Duty>, id: Id, dep: Id)
    requires HasDependent(q, id, dep)
    ensures HasDependent(Enqueue(q, ctx, duties), id, dep)
  {
    if duties != [] {
      var n := |duties| - 1;
      EnqueueKeepsDependents(q, ctx, duties[..n], id, dep);
      AddDependentHas(Enqueue(q, ctx, duties[..n]).dependents, duties[n].spec.blockedBy, duties[n].spec.id, dep);
    }
  }

  lemma {:induction false} ReleaseKeepsDependents(q: QueueState, acked: Id, ids: seq<Id>, id: Id, dep: Id)
    requires HasDependent(q, id, dep)
    ensures HasDependent(Release(q, acked, ids).0, id, dep)
    decreases |ids|
  {
    if ids != [] && ids[0] in q.blocked && acked in q.blocked[ids[0]].on {
      ReleaseKeepsDependents(ReleaseOne(q, acked, ids[0]), acked, ids[1..], id, dep);
    }
  }

  lemma {:induction false} WaitsHaveDependents(run: seq<Action>, id: Id, dep: Id)
    requires IsRun(run)
    ensures HasDependent(After(run).q, id, dep)
  {
    if run != [] {
      var before, a := run[..|run| - 1], run[|run| - 1];
      var q := After(before).q;
      WaitsHaveDependents(before, id, dep);
      match a
      case EnqueueAction(ctx, duties) => EnqueueKeepsDependents(q, ctx, duties, id, dep);
      case AckAction(acked) =>
        if acked in q.unack {
          ReleaseKeepsDependents(
            Retire(q, acked), acked, if acked in q.dependents then q.dependents[acked] else [], id, dep);
        }
      case _ =>
    }
  }

  // What still waits in a run that can be emptied is registered and outstanding.
  lemma EmptiedMeansReleases(run: seq<Action>, steps: seq<Action>, id: Id, dep: Id)
    requires Orderly(run) && Orderly(run + steps) && EnqueuedDuties(run + steps) == EnqueuedDuties(run)
    requires Emptied(After(run + steps).q)
    ensures Releases(After(run).q, id, dep)
  {
    var q, h := After(run).q, HistoryOf(run);
    if id in q.blocked && dep in q.blocked[id].on {
      Reachable(run);
      WaitsHaveDependents(run, id, dep);
      EmptiedMeansClosed(run + steps);
      assert IdentifiedAt(q, h, id) && h.duties[id] in h.order;
      assert InBatch(h.order, dep) && ConservedAt(q, h, dep);
      if Doomed(q, h, id, dep) {
        DoomedForever(run, steps, id, dep);
      }
    }
  }

  // A queue can be emptied without further enqueuing exactly when all that blocked duties wait for is
  // outstanding and would release them, the waits form no cycle, and no time is zero.
  lemma ClearsExactlyWhenClearable(run: seq<Action>)
    requires Orderly(run)
    ensures Clearable(After(run).q) <==> exists steps ::
      NoEnqueues(steps) && IsRun(run + steps) && Emptied(After(run + steps).q)
  {
    if Clearable(After(run).q) {
      var steps := CanClear(run);
    }
    forall steps | NoEnqueues(steps) && IsRun(run + steps) && Emptied(After(run + steps).q)
      ensures Clearable(After(run).q)
    {
      EmptiedMeansClearable(run, steps);
    }
  }

  lemma EmptiedMeansClearable(run: seq<Action>, steps: seq<Action>)
    requires Orderly(run) && NoEnqueues(steps) && IsRun(run + steps) && Emptied(After(run + steps).q)
    ensures Clearable(After(run).q)
  {
    AppendingEnqueuesNothing(run, steps);
    Reachable(run);
    EmptiedMeansClosed(run + steps);
    EmptiedMeansAcyclic(run + steps);
    var rank :| RankedBy(EnqueuedDuties(run + steps), rank);
    hide IsRun, After, HistoryOf, EnqueuedDuties, QueueInv, OnTime, Emptied, Releases, DistinctIds, WaitsRankedBy,
      TimesSet;
    forall id, dep ensures Releases(After(run).q, id, dep) {
      EmptiedMeansReleases(run, steps, id, dep);
    }
    WaitsAreRanked(After(run).q, HistoryOf(run), rank);
  }
}
