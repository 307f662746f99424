/**
 The server: the steps of handleNewEpoch and of runWorker, on the queue, the store and the shared duties.
 A ghost trace records the steps; the state of the server is always the state that the trace reaches.
 */
module Servers {
  import opened Types
  import opened Duties
  import opened DelayHeaps
  import opened DutyQueues
  import opened Protocol
  import opened QueueOrder
  import opened Rows
  import Q = QueueSpec
  import R = QueueRuns

  class Server {
    const evalQueue: DutyQueue

    // The primary index of the table of duties; the records are the shared duties.
    var duties: map<Id, Duty>

    // The local variables of the loop over the delay heap.
    var armed: Option<Entry<Duty>>

    ghost var trace: seq<Event>

    // The duties whose result was set by a worker.
    ghost var finished: set<Duty>

    ghost function State(): System
      requires IsTrace(trace)
      reads `trace
    {
      SystemAfter(trace)
    }

    ghost predicate Agrees()
      requires IsTrace(trace)
      reads this, evalQueue, evalQueue.delayHeap, finished
    {
      && State().run.q == evalQueue.View()
      && State().run.armed == armed
      && State().store == duties
      && State().results.Keys == finished
      && forall duty | duty in finished :: duty.result == Some(State().results[duty])
    }

    ghost predicate Valid()
      reads this, evalQueue, evalQueue.blockers, evalQueue.delayHeap, evalQueue.delayHeap.nodes, finished
    {
      evalQueue.Valid() && IsTrace(trace) && Agrees()
    }

    constructor ()
      ensures Valid() && trace == []
    {
      evalQueue := new DutyQueue();
      duties, armed := map[], None;
      trace, finished := [], {};
    }

    // What Next of the last event is, after the trace was extended.
    ghost method Record(e: Event)
      requires IsTrace(trace) && Possible(State(), e)
      modifies `trace
      ensures IsTrace(trace) && trace == old(trace) + [e] && State() == Next(old(State()), e)
    {
      assert (trace + [e])[..|trace|] == trace;
      trace := trace + [e];
    }

    // The clock goes on, and never back.
    ghost method PassTime(time: Time)
      requires Valid() && State().run.now <= time
      modifies `trace
      ensures Valid() && trace == old(trace) + [Background(R.Tick(time))] && State().run.now == time
    {
      hide DutyQueue.Valid, IsTrace, SystemAfter;
      Record(Background(R.Tick(time)));
    }

    // handleNewEpoch, first step.
    method EnqueuePlan(ctx: Q.Context, plan: seq<Duty>)
      requires Valid()
      modifies this, evalQueue, evalQueue.delayHeap, evalQueue.delayHeap.nodes
      ensures Valid() && trace == old(trace) + [EpochEnqueue(ctx, plan)]
    {
      hide DutyQueue.Valid, IsTrace, SystemAfter;
      evalQueue.Enqueue(ctx, plan);
      Record(EpochEnqueue(ctx, plan));
    }

    // handleNewEpoch, second step; the database may fail to commit.
    method UpsertPlan(ghost i: nat, plan: seq<Duty>, commits: bool) returns (ok: bool)
      requires Valid() && i < |State().pending| && State().pending[i] == plan
      modifies this
      ensures Valid() && trace == old(trace) + [EpochUpsert(i, ok)]
      ensures ok <==> commits && forall duty | duty in plan :: duty.spec.id != []
      ensures duties == if ok then Upsert(old(duties), plan) else old(duties)
      ensures ok ==> RowsAfter(DutyIdOf, old(duties), plan, duties)
      ensures ok && R.DistinctIds(plan) ==>
        forall duty | duty in plan :: duty.spec.id in duties && duties[duty.spec.id] == duty
    {
      hide DutyQueue.Valid, IsTrace, SystemAfter, RowsAfter, R.DistinctIds, Next, Possible;
      UpsertChangesStore(State(), i, commits);
      UpsertChangesStore(State(), i, false);
      ok := UpsertDuties(plan, commits);
      UpsertIsStored(old(duties), plan);
      if ok && R.DistinctIds(plan) {
        DistinctPlanIsStored(old(duties), plan, duties);
      }
      Record(EpochUpsert(i, ok));
    }

    // Stores all the duties, or none: an empty id is refused.
    method UpsertDuties(plan: seq<Duty>, commits: bool) returns (ok: bool)
      modifies `duties
      ensures ok <==> commits && forall duty | duty in plan :: duty.spec.id != []
      ensures duties == if ok then Upsert(old(duties), plan) else old(duties)
    {
      var table := duties;
      for i := 0 to |plan|
        invariant table == Upsert(duties, plan[..i]) && duties == old(duties)
        invariant forall duty | duty in plan[..i] :: duty.spec.id != []
      {
        assert plan[..i + 1][..i] == plan[..i];
        if plan[i].spec.id == [] {
          return false;
        }
        table := table[plan[i].spec.id := plan[i]];
      }
      assert plan[..|plan|] == plan;
      if !commits {
        return false;
      }
      duties := table;
      return true;
    }

    // runWorker: takes a duty. It never gets an error.
    method TakeDuty() returns (duty: Duty, ctx: Q.Context)
      requires Valid() && OrderlyTrace(trace) && evalQueue.ready != []
      modifies this, evalQueue
      ensures Valid() && trace == old(trace) + [WorkerDequeue]
      ensures duty == old(evalQueue.ready)[0] && duty.spec.id in State().workers
      ensures exists i: nat :: EnqueuedIn(old(trace), i, duty)
      ensures forall i: nat | EnqueuedIn(old(trace), i, duty) :: ctx == old(trace)[i].ctx
      ensures State().workers[duty.spec.id] == Worker(duty, Handling)
    {
      hide DutyQueue.Valid, IsTrace, SystemAfter, OrderlyTrace, Q.Dequeue, Next, Possible;
      HandedOutAsEnqueued(trace);
      DequeueChangesQueue(State());
      var r := evalQueue.Dequeue();
      duty, ctx := r.duty, r.ctx;
      Record(WorkerDequeue);
    }

    // runWorker: sets the result of the duty that was handled.
    method FinishDuty(duty: Duty, result: DutyResult)
      requires Valid() && duty.spec.id in State().workers && State().workers[duty.spec.id] == Worker(duty, Handling)
      requires ResultFits(duty.spec.job, result)
      modifies this, duty
      ensures Valid() && trace == old(trace) + [WorkerFinish(duty.spec.id, result)]
      ensures duty.result == Some(result) && duty.state == COMPLETE
    {
      hide DutyQueue.Valid, IsTrace, SystemAfter, Next, Possible;
      FinishChangesResults(State(), duty.spec.id, result);
      duty.result := Some(result);
      duty.state := COMPLETE;
      finished := finished + {duty};
      Record(WorkerFinish(duty.spec.id, result));
    }

    // runWorker: stores the duty. When that fails the worker panics, and the program with it: the trace ends.
    method StoreDuty(duty: Duty, commits: bool) returns (ok: bool)
      requires Valid() && duty.spec.id in State().workers && State().workers[duty.spec.id] == Worker(duty, Finished)
      modifies this
      ensures Valid() && trace == old(trace) + if ok then [WorkerUpsert(duty.spec.id)] else []
      ensures ok <==> commits && duty.spec.id != []
      ensures duties == if ok then old(duties)[duty.spec.id := duty] else old(duties)
    {
      hide DutyQueue.Valid, IsTrace, SystemAfter;
      ok := UpsertDuties([duty], commits);
      UpsertOne(old(duties), duty);
      if ok {
        Record(WorkerUpsert(duty.spec.id));
      }
    }

    // runWorker: acknowledges the duty. It never gets the error that it ignores.
    method AckDuty(duty: Duty) returns (r: Q.AckResult)
      requires Valid() && OrderlyTrace(trace)
      requires duty.spec.id in State().workers && State().workers[duty.spec.id] == Worker(duty, Stored)
      modifies this, evalQueue, evalQueue.blockers, evalQueue.delayHeap, evalQueue.delayHeap.nodes
      ensures Valid() && trace == old(trace) + [WorkerAck(duty.spec.id)]
      ensures r == Q.Acked
    {
      hide DutyQueue.Valid, IsTrace, SystemAfter, OrderlyTrace, Q.Ack, Next, Possible;
      AcksSucceed(trace, duty.spec.id);
      AckChangesQueue(State(), duty.spec.id);
      r := evalQueue.Ack(duty.spec.id);
      Record(WorkerAck(duty.spec.id));
    }

    // The loop over the delay heap: arms the timer for the next duty, if any.
    method ArmTimer()
      requires Valid()
      modifies this
      ensures Valid() && |trace| == |old(trace)| + 1 && trace[..|old(trace)|] == old(trace)
      ensures var e := trace[|old(trace)|]; e.Background? && (e.a.Arm? || e.a.Disarm?)
      ensures armed.Some? <==> exists id ::
        id in evalQueue.View().heap && evalQueue.View().heap[id].waitUntil != ZERO_TIME
    {
      hide DutyQueue.Valid, IsTrace, SystemAfter, Possible, Next, IsEarliest;
      var next := evalQueue.NextDelayedEval();
      EarliestIsTimed(evalQueue.View().heap);
      if next == None || next.value.waitUntil == ZERO_TIME {
        DisarmChangesTimer(State());
        armed := None;
        Record(Background(R.Disarm));
      } else {
        ghost var id :| IsEarliest(evalQueue.View().heap, id) && evalQueue.View().heap[id] == next.value;
        ArmChangesTimer(State(), id);
        armed := next;
        Record(Background(R.Arm(id)));
      }
    }

    // The loop over the delay heap: the timer fires, not before its deadline.
    method FireTimer()
      requires Valid() && armed.Some? && armed.value.waitUntil <= State().run.now
      modifies this, evalQueue, evalQueue.delayHeap, evalQueue.delayHeap.nodes
      ensures Valid() && trace == old(trace) + [Background(R.FireAction)]
    {
      hide DutyQueue.Valid, IsTrace, SystemAfter;
      evalQueue.Fire(armed.value.value);
      armed := None;
      Record(Background(R.FireAction));
    }

    // What the handling of an aggregate reads first: the root that its attestation signed. None of the
    // lookups that it does not guard can fail.
    method AttestationRoot(duty: Duty, ghost issued: map<Id, DutySpec>) returns (root: seq<byte>)
      requires Valid() && OrderlyTrace(trace) && PlansAreIssued(trace, issued) && WellIssued(issued)
      requires duty.spec.id in State().workers && State().workers[duty.spec.id].duty == duty
      requires duty.spec.job.AttestationAggregate?
      ensures |duty.spec.blockedBy| == 1 && duty.spec.blockedBy[0] in duties
      ensures duties[duty.spec.blockedBy[0]].result.Some?
      ensures duties[duty.spec.blockedBy[0]].result.value.AttestationResult?
      ensures root == duties[duty.spec.blockedBy[0]].result.value.root
    {
      hide DutyQueue.Valid, IsTrace, SystemAfter, WellIssued, OrderlyTrace;
      AggregateFindsAttestation(trace, issued, duty.spec.id);
      var attestation := duties[duty.spec.blockedBy[0]];
      root := attestation.result.value.root;
    }
  }

  lemma UpsertOne(store: map<Id, Duty>, duty: Duty)
    ensures Upsert(store, [duty]) == store[duty.spec.id := duty]
  {
    assert [duty][..0] == [] && Upsert(store, []) == store;
  }

  // Some time is set exactly when those of the earliest entries are.
  lemma EarliestIsTimed(heap: map<Id, Entry<Duty>>)
    ensures forall id | IsEarliest(heap, id) ::
      id in heap &&
      (heap[id].waitUntil != ZERO_TIME <==> exists other :: other in heap && heap[other].waitUntil != ZERO_TIME)
  {
  }

  lemma DisarmChangesTimer(s: System)
    requires forall id | id in s.run.q.heap :: s.run.q.heap[id].waitUntil == ZERO_TIME
    ensures Possible(s, Background(R.Disarm))
    ensures Next(s, Background(R.Disarm)) == s.(run := s.run.(armed := None))
  {
  }

  lemma ArmChangesTimer(s: System, id: Id)
    requires IsEarliest(s.run.q.heap, id) && s.run.q.heap[id].waitUntil != ZERO_TIME
    ensures Possible(s, Background(R.Arm(id)))
    ensures Next(s, Background(R.Arm(id))) == s.(run := s.run.(armed := Some(s.run.q.heap[id])))
  {
  }

  lemma UpsertChangesStore(s: System, i: nat, ok: bool)
    requires i < |s.pending|
    ensures Possible(s, EpochUpsert(i, ok))
    ensures Next(s, EpochUpsert(i, ok)) == s.(
      pending := s.pending[..i] + s.pending[i + 1..], store := if ok then Upsert(s.store, s.pending[i]) else s.store)
  {
  }

  lemma DequeueChangesQueue(s: System)
    requires s.run.q.ready != []
    ensures Possible(s, WorkerDequeue)
    ensures var duty := s.run.q.ready[0];
      Next(s, WorkerDequeue) == s.(
        run := s.run.(q := Q.Dequeue(s.run.q).0), workers := s.workers[duty.spec.id := Worker(duty, Handling)])
  {
  }

  lemma FinishChangesResults(s: System, id: Id, result: DutyResult)
    requires id in s.workers && s.workers[id].stage == Handling && ResultFits(s.workers[id].duty.spec.job, result)
    ensures Possible(s, WorkerFinish(id, result))
    ensures var duty := s.workers[id].duty;
      Next(s, WorkerFinish(id, result)) ==
        s.(workers := s.workers[id := Worker(duty, Finished)], results := s.results[duty := result])
  {
  }

  lemma AckChangesQueue(s: System, id: Id)
    requires id in s.workers && s.workers[id].stage == Stored
    ensures Possible(s, WorkerAck(id))
    ensures Next(s, WorkerAck(id)) ==
      s.(run := s.run.(q := Q.Ack(s.run.q, id).0), workers := s.workers - {id})
  {
  }

  lemma DistinctPlanIsStored(before: map<Id, Duty>, plan: seq<Duty>, after: map<Id, Duty>)
    requires RowsAfter(DutyIdOf, before, plan, after) && R.DistinctIds(plan)
    ensures forall duty | duty in plan :: duty.spec.id in after && after[duty.spec.id] == duty
  {
    forall duty | duty in plan ensures duty.spec.id in after && after[duty.spec.id] == duty {
      var i: nat :| i < |plan| && plan[i] == duty;
      DistinctAreStored(DutyIdOf, before, plan, after, i);
    }
  }

  // Event i of a trace enqueues the duty.
  ghost predicate EnqueuedIn(trace: seq<Event>, i: nat, duty: Duty) {
    i < |trace| && trace[i].EpochEnqueue? && duty in trace[i].plan
  }

  // What is ready can be handed out, with the context of the epoch that enqueued it.
  lemma HandedOutAsEnqueued(trace: seq<Event>)
    requires OrderlyTrace(trace) && SystemAfter(trace).run.q.ready != []
    ensures var q := SystemAfter(trace).run.q;
      && Q.Dequeue(q).1.Dequeued? && Q.Dequeue(q).1.duty == q.ready[0]
      && (exists i: nat :: EnqueuedIn(trace, i, q.ready[0]))
      && (forall i: nat | EnqueuedIn(trace, i, q.ready[0]) :: Q.Dequeue(q).1.ctx == trace[i].ctx)
  {
    hide OrderlyTrace, IsTrace, SystemAfter, QueueRun, Q.Dequeue;
    var q := SystemAfter(trace).run.q;
    var first := ReadyIsEnqueued(trace);
    assert EnqueuedIn(trace, first, q.ready[0]);
    forall i: nat | EnqueuedIn(trace, i, q.ready[0])
      ensures Q.Dequeue(q).1 == Q.Dequeued(q.ready[0], trace[i].ctx)
    {
      ContextOfEvent(trace, i);
    }
  }

  lemma ContextOfEvent(trace: seq<Event>, i: nat)
    requires OrderlyTrace(trace) && SystemAfter(trace).run.q.ready != []
    requires EnqueuedIn(trace, i, SystemAfter(trace).run.q.ready[0])
    ensures var q := SystemAfter(trace).run.q; Q.Dequeue(q).1 == Q.Dequeued(q.ready[0], trace[i].ctx)
  {
    hide IsTrace, SystemAfter, QueueRun, Q.Dequeue;
    TraceIsRun(trace);
    var j := EnqueuedInRun(trace, i);
    HandsOutItsOwn(QueueRun(trace), j);
  }

  lemma ReadyIsEnqueued(trace: seq<Event>) returns (i: nat)
    requires OrderlyTrace(trace) && SystemAfter(trace).run.q.ready != []
    ensures EnqueuedIn(trace, i, SystemAfter(trace).run.q.ready[0])
  {
    var q, h := SystemAfter(trace).run.q, HistoryOfTrace(trace);
    QueueReachable(trace);
    TraceIsRun(trace);
    R.OrderIsRecorded(QueueRun(trace));
    assert q.ready[0].spec.id in h.duties && h.duties[q.ready[0].spec.id] in h.order;
    hide R.QueueInv, IsTrace, SystemAfter, QueueRun;
    i := EnqueuedWith(trace, q.ready[0]);
  }

  // The worker of a duty can acknowledge it.
  lemma AcksSucceed(trace: seq<Event>, id: Id)
    requires OrderlyTrace(trace) && id in SystemAfter(trace).workers
    ensures Q.Ack(SystemAfter(trace).run.q, id).1 == Q.Acked
  {
    SystemReachable(trace);
    QueueReachable(trace);
    assert WorkerInv(SystemAfter(trace), id);
    R.AckSucceeds(SystemAfter(trace).run.q, HistoryOfTrace(trace), id);
  }
}
