/** What the queue hands out: duties in the order in which they became ready, each with its own context. */
module QueueOrder {
  import opened Types
  import opened Duties
  import opened QueueSpec
  import opened QueueRuns
  import opened QueueSafety
  import opened QueueDrain

  // The duty that a step makes ready, and the duty that it hands out.

  ghost function FiredBy(s: RunState, a: Action): seq<Duty>
    requires Enabled(s, a)
  {
    if a.FireAction? then [s.armed.value.value] else []
  }

  ghost function HandedOutBy(s: RunState, a: Action): seq<Duty>
    requires Enabled(s, a)
  {
    if a.DequeueAction? && Dequeue(s.q).1.Dequeued? then [Dequeue(s.q).1.duty] else []
  }

  // The duties that became ready in a run, in order.
  ghost function Fired(run: seq<Action>): seq<Duty>
    requires IsRun(run)
  {
    if run == [] then []
    else Fired(run[..|run| - 1]) + FiredBy(After(run[..|run| - 1]), run[|run| - 1])
  }

  // The duties that were handed out in a run, in order.
  ghost function HandedOut(run: seq<Action>): seq<Duty>
    requires IsRun(run)
  {
    if run == [] then []
    else HandedOut(run[..|run| - 1]) + HandedOutBy(After(run[..|run| - 1]), run[|run| - 1])
  }

  lemma ReadyChanges(s: RunState, h: History, a: Action)
    requires QueueInv(s.q, h) && Enabled(s, a)
    ensures s.q.ready + FiredBy(s, a) == HandedOutBy(s, a) + Step(s, a).q.ready
  {
    hide Conserved, DependenciesKept, Counted, Recorded, Enqueue, Ack;
    match a
    case EnqueueAction(ctx, duties) => EnqueueKeepsHeap(s.q, ctx, duties);
    case AckAction(id) => AckOutcome(s.q, id);
    case DequeueAction => DequeueFindsContext(s.q, h);
    case _ =>
  }

  lemma PassesThrough(out: seq<Duty>, ready: seq<Duty>, more: seq<Duty>, taken: seq<Duty>, left: seq<Duty>)
    requires ready + more == taken + left
    ensures out + taken + left == out + ready + more
  {
    assert out + taken + left == out + (taken + left) == out + (ready + more) == out + ready + more;
  }

  // First in, first out: the duties handed out, and then those ready, are those that became ready, in order.
  lemma {:induction false} FirstInFirstOut(run: seq<Action>)
    requires Orderly(run)
    ensures HandedOut(run) + After(run).q.ready == Fired(run)
  {
    if run != [] {
      var before, a := run[..|run| - 1], run[|run| - 1];
      DistinctPrefix(EnqueuedDuties(before), if a.EnqueueAction? then a.duties else []);
      FirstInFirstOut(before);
      Reachable(before);
      var s := After(before);
      hide QueueInv, OnTime, Step, FiredBy, HandedOutBy, Enabled, DistinctIds, EnqueuedDuties, HistoryOf;
      ReadyChanges(s, HistoryOf(before), a);
      PassesThrough(HandedOut(before), s.q.ready, FiredBy(s, a), HandedOutBy(s, a), Step(s, a).q.ready);
    }
  }

  // The context of an id after a batch.
  lemma {:induction false} ContextAfterEnqueue(q: QueueState, ctx: Context, duties: seq<Duty>, id: Id)
    ensures var q' := Enqueue(q, ctx, duties);
      if InBatch(duties, id) then id in q'.contexts && q'.contexts[id] == ctx
      else (id in q'.contexts <==> id in q.contexts) && (id in q.contexts ==> q'.contexts[id] == q.contexts[id])
  {
    hide EnqueueOne, InBatch;
    LastInBatch(duties, id);
    if duties != [] {
      var n := |duties| - 1;
      ContextAfterEnqueue(q, ctx, duties[..n], id);
      ContextAfterOne(Enqueue(q, ctx, duties[..n]), ctx, duties[n]);
    }
  }

  lemma ContextAfterOne(q: QueueState, ctx: Context, duty: Duty)
    ensures EnqueueOne(q, ctx, duty).contexts == q.contexts[duty.spec.id := ctx]
  {
  }

  lemma LastInBatch(duties: seq<Duty>, id: Id)
    ensures InBatch(duties, id) <==>
      duties != [] && (InBatch(duties[..|duties| - 1], id) || duties[|duties| - 1].spec.id == id)
  {
    if duties != [] {
      assert duties == duties[..|duties| - 1] + [duties[|duties| - 1]];
    }
  }

  lemma {:induction false} ReleaseKeepsContexts(q: QueueState, acked: Id, ids: seq<Id>)
    ensures Release(q, acked, ids).0.contexts == q.contexts
    decreases |ids|
  {
    if ids != [] && ids[0] in q.blocked && acked in q.blocked[ids[0]].on {
      ReleaseKeepsContexts(ReleaseOne(q, acked, ids[0]), acked, ids[1..]);
    }
  }

  // A step other than one that enqueues the id gives it no other context.
  lemma ContextStays(s: RunState, a: Action, id: Id)
    requires Enabled(s, a) && id in Step(s, a).q.contexts && !(a.EnqueueAction? && InBatch(a.duties, id))
    ensures id in s.q.contexts && Step(s, a).q.contexts[id] == s.q.contexts[id]
  {
    match a
    case EnqueueAction(ctx, duties) => ContextAfterEnqueue(s.q, ctx, duties, id);
    case AckAction(acked) =>
      if acked in s.q.unack {
        ReleaseKeepsContexts(Retire(s.q, acked), acked, if acked in s.q.dependents then s.q.dependents[acked] else []);
      }
    case _ =>
  }

  // As long as an id has a context, it is the one that the id was enqueued with.
  lemma {:induction false} ContextIsItsOwn(run: seq<Action>, i: nat, id: Id)
    requires Orderly(run) && i < |run| && EnqueuedAt(run, i, id) && id in After(run).q.contexts
    ensures After(run).q.contexts[id] == run[i].ctx
  {
    var n := |run| - 1;
    var before, a := run[..n], run[n];
    if i == n {
      assert InBatch(a.duties, id);
      ContextAfterEnqueue(After(before).q, a.ctx, a.duties, id);
    } else {
      assert EnqueuedAt(before, i, id);
      NotEnqueuedAgain(run, i, id);
      ContextStays(After(before), a, id);
      DistinctPrefix(EnqueuedDuties(before), if a.EnqueueAction? then a.duties else []);
      ContextIsItsOwn(before, i, id);
    }
  }

  lemma NotEnqueuedAgain(run: seq<Action>, i: nat, id: Id)
    requires Orderly(run) && i < |run| - 1 && EnqueuedAt(run[..|run| - 1], i, id)
    ensures !(run[|run| - 1].EnqueueAction? && InBatch(run[|run| - 1].duties, id))
  {
    var before, a := run[..|run| - 1], run[|run| - 1];
    if a.EnqueueAction? && InBatch(a.duties, id) {
      DistinctPrefix(EnqueuedDuties(before), a.duties);
      Reachable(before);
      EnqueuedMeans(before, id);
      NewIdIsNew(HistoryOf(before), a.duties, id);
    }
  }

  // The duty that is handed out next comes with the context that it was enqueued with.
  lemma HandsOutItsOwn(run: seq<Action>, i: nat)
    requires Orderly(run) && After(run).q.ready != []
    requires i < |run| && EnqueuedAt(run, i, After(run).q.ready[0].spec.id)
    ensures Dequeue(After(run).q).1 == Dequeued(After(run).q.ready[0], run[i].ctx)
  {
    var q, h := After(run).q, HistoryOf(run);
    Reachable(run);
    assert q.ready[0].spec.id in ReadyIds(q);
    assert ConservedAt(q, h, q.ready[0].spec.id);
    hide QueueInv, OnTime, IsRun, After, HistoryOf, EnqueuedDuties, DistinctIds;
    ContextIsItsOwn(run, i, q.ready[0].spec.id);
  }
}
