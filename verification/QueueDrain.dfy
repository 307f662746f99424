/**
 Draining the duty queue: batches of duties whose dependencies are in the batch and form no cycle drain
 completely, in three steps for each duty, exactly when no two duties name the same dependency.
 */
module QueueDrain {
  import opened Types
  import opened Duties
  import opened QueueSpec
  import opened QueueRuns
  import opened QueueSafety

  ghost predicate InBatch(duties: seq<Duty>, id: Id) {
    exists duty :: duty in duties && duty.spec.id == id
  }

  ghost predicate Closed(duties: seq<Duty>) {
    forall duty, dep | duty in duties && dep in duty.spec.blockedBy :: InBatch(duties, dep)
  }

  ghost predicate RankedBy(duties: seq<Duty>, rank: map<Id, nat>) {
    forall duty, dep | duty in duties && dep in duty.spec.blockedBy ::
      duty.spec.id in rank && dep in rank && rank[dep] < rank[duty.spec.id]
  }

  ghost predicate Acyclic(duties: seq<Duty>) {
    exists rank :: RankedBy(duties, rank)
  }

  // A zero active time means never.
  ghost predicate Timed(duties: seq<Duty>) {
    forall duty | duty in duties :: duty.spec.activeTime != ZERO_TIME
  }

  ghost predicate Share(duties: seq<Duty>, i: nat, j: nat, dep: Id) {
    i < j < |duties| && dep in duties[i].spec.blockedBy && dep in duties[j].spec.blockedBy
  }

  // No two duties name the same dependency.
  ghost predicate Unshared(duties: seq<Duty>) {
    forall i: nat, j: nat, dep :: !Share(duties, i, j, dep)
  }

  ghost predicate Drainable(duties: seq<Duty>) {
    Closed(duties) && Acyclic(duties) && Timed(duties) && Unshared(duties)
  }

  ghost predicate AllDrainable(run: seq<Action>) {
    forall i | 0 <= i < |run| && run[i].EnqueueAction? :: Drainable(run[i].duties)
  }

  // What a blocked duty waits for is outstanding, and would release it.
  ghost predicate WillRelease(q: QueueState, h: History, id: Id, dep: Id) {
    id in q.blocked && dep in q.blocked[id].on ==>
      dep in q.dependents && q.dependents[dep] == [id] && dep in h.duties && dep !in h.acked
  }

  ghost predicate DrainInv(q: QueueState, h: History) {
    forall id, dep :: WillRelease(q, h, id, dep)
  }

  // What enqueuing a batch does to the blocked duties and to the dependents.

  ghost predicate Names(duties: seq<Duty>, dep: Id) {
    exists duty :: duty in duties && dep in duty.spec.blockedBy
  }

  lemma {:induction false} OthersStayBlocked(q: QueueState, ctx: Context, duties: seq<Duty>, id: Id)
    requires !InBatch(duties, id)
    ensures var q' := Enqueue(q, ctx, duties);
      && (id in q'.blocked <==> id in q.blocked)
      && (id in q.blocked ==> q'.blocked[id] == q.blocked[id])
  {
    if duties != [] {
      var n := |duties| - 1;
      assert forall duty | duty in duties[..n] :: duty in duties;
      assert duties[n] in duties;
      OthersStayBlocked(q, ctx, duties[..n], id);
    }
  }

  lemma {:induction false} OthersStayRegistered(q: QueueState, ctx: Context, duties: seq<Duty>, dep: Id)
    requires !Names(duties, dep)
    ensures var q' := Enqueue(q, ctx, duties);
      && (dep in q'.dependents <==> dep in q.dependents)
      && (dep in q.dependents ==> q'.dependents[dep] == q.dependents[dep])
  {
    if duties != [] {
      var n := |duties| - 1;
      assert forall duty | duty in duties[..n] :: duty in duties;
      assert duties[n] in duties;
      OthersStayRegistered(q, ctx, duties[..n], dep);
      AddDependentHas(Enqueue(q, ctx, duties[..n]).dependents, duties[n].spec.blockedBy, duties[n].spec.id, dep);
    }
  }

  lemma {:induction false} MemberBlocked(q: QueueState, ctx: Context, duties: seq<Duty>, i: nat)
    requires i < |duties| && DistinctIds(duties) && duties[i].spec.id !in q.blocked
    ensures var q', id := Enqueue(q, ctx, duties), duties[i].spec.id;
      if duties[i].spec.blockedBy == [] then id !in q'.blocked
      else id in q'.blocked && q'.blocked[id] == Waiting(duties[i], Elements(duties[i].spec.blockedBy))
  {
    var n := |duties| - 1;
    assert duties == duties[..n] + [duties[n]];
    if i < n {
      MemberBlocked(q, ctx, duties[..n], i);
    } else {
      assert !InBatch(duties[..n], duties[i].spec.id);
      OthersStayBlocked(q, ctx, duties[..n], duties[i].spec.id);
    }
  }

  // The last duty of a batch that names a dependency is its only dependent.
  lemma {:induction false} LastNamedWins(q: QueueState, ctx: Context, duties: seq<Duty>, i: nat, dep: Id)
    requires i < |duties| && dep in duties[i].spec.blockedBy
    requires forall j | i < j < |duties| :: dep !in duties[j].spec.blockedBy
    ensures var q' := Enqueue(q, ctx, duties); dep in q'.dependents && q'.dependents[dep] == [duties[i].spec.id]
  {
    var n := |duties| - 1;
    if i < n {
      LastNamedWins(q, ctx, duties[..n], i, dep);
    }
    AddDependentHas(Enqueue(q, ctx, duties[..n]).dependents, duties[n].spec.blockedBy, duties[n].spec.id, dep);
  }

  lemma NewIdIsNew(h: History, duties: seq<Duty>, id: Id)
    requires Recorded(h) && DistinctIds(h.order + duties) && InBatch(duties, id)
    ensures id !in h.duties
  {
    var j :| 0 <= j < |duties| && duties[j].spec.id == id;
    forall d | d in h.order ensures d.spec.id != id {
      var i :| 0 <= i < |h.order| && h.order[i] == d;
      assert (h.order + duties)[i] == d && (h.order + duties)[|h.order| + j] == duties[j];
    }
  }

  lemma DistinctSuffix(duties: seq<Duty>, more: seq<Duty>)
    requires DistinctIds(duties + more)
    ensures DistinctIds(more)
  {
    forall i, j | 0 <= i < j < |more| ensures more[i].spec.id != more[j].spec.id {
      assert (duties + more)[|duties| + i] == more[i] && (duties + more)[|duties| + j] == more[j];
    }
  }

  // A duty that was blocked before the batch.
  lemma OldWillRelease(q: QueueState, h: History, ctx: Context, duties: seq<Duty>, id: Id, dep: Id)
    requires QueueInv(q, h) && WillRelease(q, h, id, dep) && DistinctIds(h.order + duties) && Closed(duties)
    requires !InBatch(duties, id)
    ensures WillRelease(Enqueue(q, ctx, duties), RecordEnqueued(h, duties), id, dep)
  {
    OthersStayBlocked(q, ctx, duties, id);
    RecordedIds(h, duties, dep);
    RecordingKeeps(h, duties);
    if dep in h.duties {
      if InBatch(duties, dep) {
        NewIdIsNew(h, duties, dep);
      }
      OthersStayRegistered(q, ctx, duties, dep);
    }
  }

  // A duty of the batch.
  lemma NewWillRelease(q: QueueState, h: History, ctx: Context, duties: seq<Duty>, id: Id, dep: Id)
    requires QueueInv(q, h) && DistinctIds(h.order + duties) && Closed(duties) && Unshared(duties)
    requires InBatch(duties, id)
    ensures WillRelease(Enqueue(q, ctx, duties), RecordEnqueued(h, duties), id, dep)
  {
    NewIdIsNew(h, duties, id);
    assert id !in q.blocked by {
      assert ConservedAt(q, h, id);
    }
    var i :| 0 <= i < |duties| && duties[i].spec.id == id;
    DistinctSuffix(h.order, duties);
    MemberBlocked(q, ctx, duties, i);
    if dep in duties[i].spec.blockedBy {
      assert forall j | i < j < |duties| && dep in duties[j].spec.blockedBy :: Share(duties, i, j, dep);
      LastNamedWins(q, ctx, duties, i, dep);
      RecordedIds(h, duties, dep);
      RecordingKeeps(h, duties);
      assert duties[i] in duties && InBatch(duties, dep);
      NewIdIsNew(h, duties, dep);
      assert dep !in h.acked by {
        assert ConservedAt(q, h, dep);
      }
    }
  }

  lemma EnqueueKeepsDrainInv(q: QueueState, h: History, ctx: Context, duties: seq<Duty>)
    requires QueueInv(q, h) && DrainInv(q, h) && DistinctIds(h.order + duties)
    requires Closed(duties) && Unshared(duties)
    ensures DrainInv(Enqueue(q, ctx, duties), RecordEnqueued(h, duties))
  {
    hide QueueInv, WillRelease;
    forall id, dep ensures WillRelease(Enqueue(q, ctx, duties), RecordEnqueued(h, duties), id, dep) {
      if InBatch(duties, id) {
        NewWillRelease(q, h, ctx, duties, id, dep);
      } else {
        OldWillRelease(q, h, ctx, duties, id, dep);
      }
    }
  }

  lemma ReleaseCrossesOut(q: QueueState, acked: Id, id: Id, other: Id)
    requires id in q.blocked && other in ReleaseOne(q, acked, id).blocked
    ensures ReleaseOne(q, acked, id).dependents == q.dependents && other in q.blocked
    ensures ReleaseOne(q, acked, id).blocked[other] ==
      if id == other then q.blocked[other].(on := q.blocked[other].on - {acked}) else q.blocked[other]
  {
  }

  // Acknowledging a duty does nothing to blocked duties but cross the duty out.
  lemma AckCrossesOut(q: QueueState, h: History, id: Id, other: Id)
    requires QueueInv(q, h) && id in q.unack && other in Ack(q, id).0.blocked
    ensures Ack(q, id).0.dependents == q.dependents && other in q.blocked
    ensures Ack(q, id).0.blocked[other] ==
      if id in q.dependents && q.dependents[id] == [other]
      then q.blocked[other].(on := q.blocked[other].on - {id}) else q.blocked[other]
  {
    hide QueueInv, Ack, ReleaseOne;
    AckSucceeds(q, h, id);
    if id in q.dependents {
      DependentFound(q, h, id);
      assert q.dependents[id] == [q.dependents[id][0]];
      ReleaseCrossesOut(Retire(q, id), id, q.dependents[id][0], other);
    }
  }

  lemma AckKeepsDrainInv(q: QueueState, h: History, id: Id)
    requires QueueInv(q, h) && DrainInv(q, h) && id in q.unack
    ensures DrainInv(Ack(q, id).0, RecordAcked(h, id))
  {
    hide QueueInv, Ack;
    forall other, dep ensures WillRelease(Ack(q, id).0, RecordAcked(h, id), other, dep) {
      if other in Ack(q, id).0.blocked {
        AckCrossesOut(q, h, id, other);
        assert WillRelease(q, h, other, dep);
      }
    }
  }

  lemma StepKeepsDrainInv(s: RunState, h: History, a: Action)
    requires QueueInv(s.q, h) && DrainInv(s.q, h) && Enabled(s, a)
    requires DistinctIds(Advance(h, s.q, a).order)
    requires a.EnqueueAction? ==> Drainable(a.duties)
    ensures DrainInv(Step(s, a).q, Advance(h, s.q, a))
  {
    hide QueueInv, DrainInv;
    match a
    case EnqueueAction(ctx, duties) =>
      RecordedInOrder(h, duties);
      EnqueueKeepsDrainInv(s.q, h, ctx, duties);
    case AckAction(id) =>
      if id in s.q.unack {
        AckKeepsDrainInv(s.q, h, id);
      }
    case _ =>
      SameBlockedKeepsDrainInv(s.q, Step(s, a).q, h);
  }

  lemma SameBlockedKeepsDrainInv(q: QueueState, q': QueueState, h: History)
    requires DrainInv(q, h) && q'.blocked == q.blocked && q'.dependents == q.dependents
    ensures DrainInv(q', h)
  {
    forall id, dep ensures WillRelease(q', h, id, dep) {
      assert WillRelease(q, h, id, dep);
    }
  }

  lemma {:induction false} DrainInvReachable(run: seq<Action>)
    requires Orderly(run) && AllDrainable(run)
    ensures DrainInv(After(run).q, HistoryOf(run))
  {
    if run != [] {
      var n := |run| - 1;
      var before, a := run[..n], run[n];
      DistinctPrefix(EnqueuedDuties(before), if a.EnqueueAction? then a.duties else []);
      assert forall i | 0 <= i < n :: before[i] == run[i];
      assert a.EnqueueAction? ==> Drainable(run[n].duties);
      DrainInvReachable(before);
      Reachable(before);
      hide QueueInv, DrainInv, Drainable;
      OrderIsRecorded(run);
      StepKeepsDrainInv(After(before), HistoryOf(before), a);
    }
  }

  // Progress.

  // How many more steps the outstanding duties need.
  function WorkLeft(q: QueueState): nat {
    3 * |q.blocked| + 3 * |q.heap| + 2 * |q.ready| + |q.unack|
  }

  // Firing, dequeuing and acknowledging move one duty on.
  ghost predicate IsWork(s: RunState, a: Action) {
    a.FireAction? || a.DequeueAction? || (a.AckAction? && a.id in s.q.unack)
  }

  lemma StepTakesWork(s: RunState, h: History, a: Action)
    requires QueueInv(s.q, h) && OnTime(s) && Enabled(s, a)
    requires DistinctIds(Advance(h, s.q, a).order)
    ensures WorkLeft(Step(s, a).q) ==
      if a.EnqueueAction? then WorkLeft(s.q) + 3 * |a.duties|
      else if IsWork(s, a) then WorkLeft(s.q) - 1
      else WorkLeft(s.q)
  {
    var q', h' := Step(s, a).q, Advance(h, s.q, a);
    match a
    case EnqueueAction(ctx, duties) =>
      RecordedInOrder(h, duties);
      DistinctSuffix(h.order, duties);
      hide QueueInv;
      EnqueueAddsWork(s.q, h, ctx, duties);
    case AckAction(id) =>
      if id in s.q.unack {
        AckTakesWork(s.q, h, id);
      }
    case DequeueAction =>
      DequeueFindsContext(s.q, h);
      assert s.q.ready[0].spec.id in ReadyIds(s.q);
      assert ConservedAt(s.q, h, s.q.ready[0].spec.id);
    case _ =>
  }

  lemma AckTakesWork(q: QueueState, h: History, id: Id)
    requires QueueInv(q, h) && id in q.unack
    ensures WorkLeft(Ack(q, id).0) == WorkLeft(q) - 1
  {
    AckSucceeds(q, h, id);
    if id in q.dependents {
      DependentFound(q, h, id);
      var x := q.dependents[id][0];
      assert ConservedAt(q, h, x) && IdentifiedAt(q, h, x);
      hide QueueInv, Ack;
      ReleaseOneKeepsWork(Retire(q, id), id, x);
    }
  }

  lemma ReleaseOneKeepsWork(q: QueueState, acked: Id, id: Id)
    requires id in q.blocked && q.blocked[id].duty.spec.id !in q.heap
    ensures WorkLeft(ReleaseOne(q, acked, id)) == WorkLeft(q)
  {
    var w := q.blocked[id].(on := q.blocked[id].on - {acked});
    var q1 := q.(blocked := q.blocked[id := w]);
    assert q1.blocked.Keys == q.blocked.Keys;
    assert MoveToHeap(q1, id).blocked.Keys == q.blocked.Keys - {id};
  }

  lemma {:induction false} EnqueueAddsWork(q: QueueState, h: History, ctx: Context, duties: seq<Duty>)
    requires QueueInv(q, h) && DistinctIds(h.order + duties)
    ensures WorkLeft(Enqueue(q, ctx, duties)) == WorkLeft(q) + 3 * |duties|
  {
    if duties != [] {
      var n := |duties| - 1;
      assert h.order + duties == (h.order + duties[..n]) + [duties[n]];
      DistinctPrefix(h.order + duties[..n], [duties[n]]);
      EnqueueAddsWork(q, h, ctx, duties[..n]);
      EnqueueKeeps(q, h, ctx, duties[..n]);
      var q1, h1 := Enqueue(q, ctx, duties[..n]), RecordEnqueued(h, duties[..n]);
      var id := duties[n].spec.id;
      assert [duties[n]][0].spec.id == id;
      NewIdIsNew(h1, [duties[n]], id);
      assert ConservedAt(q1, h1, id);
      hide QueueInv, Enqueue;
      EnqueueOneAddsWork(q1, ctx, duties[n]);
    }
  }

  lemma EnqueueOneAddsWork(q: QueueState, ctx: Context, duty: Duty)
    requires duty.spec.id !in q.blocked && duty.spec.id !in q.heap
    ensures WorkLeft(EnqueueOne(q, ctx, duty)) == WorkLeft(q) + 3
  {
  }

  // The number of steps of a run that moved a duty on.
  ghost function WorkDone(run: seq<Action>): nat
    requires IsRun(run)
  {
    if run == [] then 0
    else
      var before := run[..|run| - 1];
      WorkDone(before) + if IsWork(After(before), run[|run| - 1]) then 1 else 0
  }

  // Every enqueued duty takes exactly three steps: what was done and what is left always add up.
  lemma {:induction false} WorkAddsUp(run: seq<Action>)
    requires Orderly(run)
    ensures WorkDone(run) + WorkLeft(After(run).q) == 3 * |EnqueuedDuties(run)|
  {
    if run != [] {
      var n := |run| - 1;
      var before, a := run[..n], run[n];
      DistinctPrefix(EnqueuedDuties(before), if a.EnqueueAction? then a.duties else []);
      WorkAddsUp(before);
      Reachable(before);
      OrderIsRecorded(run);
      hide QueueInv, OnTime;
      StepTakesWork(After(before), HistoryOf(before), a);
    }
  }
}
