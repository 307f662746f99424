/** Why drainable batches drain, and why others do not. */
module QueueProgress {
  import opened Types
  import opened Duties
  import opened HeapOrder
  import opened DelayHeaps
  import opened QueueSpec
  import opened QueueRuns
  import opened QueueSafety
  import opened QueueDrain

  ghost predicate Emptied(q: QueueState) {
    q.blocked == map[] && q.heap == map[] && q.ready == [] && q.unack == map[] && q.contexts == map[]
  }

  ghost predicate Movable(q: QueueState, id: Id) {
    id in q.heap || id in ReadyIds(q) || id in q.unack
  }

  lemma {:induction false} BatchesAreEnqueued(run: seq<Action>, i: nat, duty: Duty)
    requires i < |run| && run[i].EnqueueAction? && duty in run[i].duties
    ensures duty in EnqueuedDuties(run)
  {
    if i < |run| - 1 {
      BatchesAreEnqueued(run[..|run| - 1], i, duty);
    }
  }

  lemma {:induction false} EnqueuedInBatch(run: seq<Action>, duty: Duty)
    requires duty in EnqueuedDuties(run)
    ensures exists i :: 0 <= i < |run| && run[i].EnqueueAction? && duty in run[i].duties
  {
    var n := |run| - 1;
    if duty in EnqueuedDuties(run[..n]) {
      EnqueuedInBatch(run[..n], duty);
      var i :| 0 <= i < n && run[..n][i].EnqueueAction? && duty in run[..n][i].duties;
      assert run[i].EnqueueAction? && duty in run[i].duties;
    } else {
      assert run[n].EnqueueAction? && duty in run[n].duties;
    }
  }

  // What a blocked duty waits for is outstanding, and would release it.
  ghost predicate Releases(q: QueueState, id: Id, dep: Id) {
    id in q.blocked && dep in q.blocked[id].on ==>
      dep in q.dependents && q.dependents[dep] == [id] && dep in q.contexts
  }

  ghost predicate RanksWait(q: QueueState, rank: map<Id, nat>, id: Id, dep: Id) {
    id in q.blocked && dep in q.blocked[id].on ==> id in rank && dep in rank && rank[dep] < rank[id]
  }

  // The waits form no cycle.
  ghost predicate WaitsRankedBy(q: QueueState, rank: map<Id, nat>) {
    forall id, dep :: RanksWait(q, rank, id, dep)
  }

  // No duty in the heap, or on its way there, has a zero time.
  ghost predicate TimesSet(q: QueueState) {
    && (forall id | id in q.heap :: q.heap[id].waitUntil != ZERO_TIME)
    && (forall id | id in q.blocked :: q.blocked[id].duty.spec.activeTime != ZERO_TIME)
  }

  // Nothing that is in the queue stands in the way of emptying it.
  ghost predicate Clearable(q: QueueState) {
    && (forall id, dep :: Releases(q, id, dep))
    && (exists rank :: WaitsRankedBy(q, rank))
    && TimesSet(q)
  }

  lemma ReleasesMeans(q: QueueState, h: History)
    requires QueueInv(q, h)
    ensures DrainInv(q, h) <==> forall id, dep :: Releases(q, id, dep)
  {
    forall id, dep ensures Releases(q, id, dep) <==> WillRelease(q, h, id, dep) {
      assert ConservedAt(q, h, dep);
    }
  }

  // Following what blocked duties wait for leads to one that can move.
  lemma {:induction false} FindMovable(q: QueueState, h: History, rank: map<Id, nat>, id: Id) returns (found: Id)
    requires QueueInv(q, h) && DrainInv(q, h) && WaitsRankedBy(q, rank) && id in q.blocked
    ensures Movable(q, found)
    decreases if id in rank then rank[id] else 0
  {
    assert q.blocked[id].on != {};
    var dep :| dep in q.blocked[id].on;
    assert WillRelease(q, h, id, dep) && ConservedAt(q, h, dep) && RanksWait(q, rank, id, dep);
    hide QueueInv, DrainInv, WaitsRankedBy;
    if dep in q.blocked {
      found := FindMovable(q, h, rank, dep);
    } else {
      found := dep;
    }
  }

  // As long as a duty is blocked, some duty is in the heap, ready or unacknowledged.
  lemma ClearableCanMove(q: QueueState, h: History)
    requires QueueInv(q, h) && Clearable(q) && q.blocked != map[]
    ensures exists id :: Movable(q, id)
  {
    ReleasesMeans(q, h);
    var id :| id in q.blocked;
    var rank :| WaitsRankedBy(q, rank);
    hide QueueInv, DrainInv, Clearable;
    var found := FindMovable(q, h, rank, id);
  }

  // Unless something is enqueued, waits only go away.

  ghost predicate WaitsShrink(q: QueueState, q': QueueState) {
    forall id | id in q'.blocked ::
      id in q.blocked && q'.blocked[id].on <= q.blocked[id].on && q'.blocked[id].duty == q.blocked[id].duty
  }

  lemma ShrunkIsRanked(q: QueueState, q': QueueState, rank: map<Id, nat>)
    requires WaitsShrink(q, q') && WaitsRankedBy(q, rank)
    ensures WaitsRankedBy(q', rank)
  {
    forall id, dep ensures RanksWait(q', rank, id, dep) {
      assert RanksWait(q, rank, id, dep);
    }
  }

  lemma ReleaseShrinksWaits(q: QueueState, acked: Id, id: Id)
    requires id in q.blocked && TimesSet(q)
    ensures WaitsShrink(q, ReleaseOne(q, acked, id)) && TimesSet(ReleaseOne(q, acked, id))
  {
  }

  lemma AckShrinksWaits(q: QueueState, h: History, id: Id)
    requires QueueInv(q, h) && id in q.unack && TimesSet(q)
    ensures WaitsShrink(q, Ack(q, id).0) && TimesSet(Ack(q, id).0)
  {
    hide QueueInv, Ack, ReleaseOne;
    AckSucceeds(q, h, id);
    if id in q.dependents {
      ReleaseShrinksWaits(Retire(q, id), id, q.dependents[id][0]);
    }
  }

  lemma StepShrinksWaits(s: RunState, h: History, a: Action)
    requires QueueInv(s.q, h) && Enabled(s, a) && !a.EnqueueAction? && TimesSet(s.q)
    ensures WaitsShrink(s.q, Step(s, a).q) && TimesSet(Step(s, a).q)
  {
    match a
    case AckAction(id) =>
      if id in s.q.unack {
        hide QueueInv;
        AckShrinksWaits(s.q, h, id);
      }
    case _ =>
  }

  lemma StepStaysClearable(s: RunState, h: History, a: Action)
    requires QueueInv(s.q, h) && OnTime(s) && Enabled(s, a) && !a.EnqueueAction? && Clearable(s.q)
    requires DistinctIds(Advance(h, s.q, a).order)
    ensures Clearable(Step(s, a).q)
  {
    hide QueueInv, OnTime, DrainInv, Step, Enabled, TimesSet, Releases, WaitsRankedBy, WaitsShrink, DistinctIds,
      Advance;
    var rank :| WaitsRankedBy(s.q, rank);
    ReleasesMeans(s.q, h);
    StepShrinksWaits(s, h, a);
    StepKeepsDrainInv(s, h, a);
    StepKeepsQueueInv(s, h, a);
    ReleasesMeans(Step(s, a).q, Advance(h, s.q, a));
    ShrunkIsRanked(s.q, Step(s, a).q, rank);
  }

  // Drainable batches leave the queue clearable.

  // The ranks of the given duties are those in another map.
  function Override(rank: map<Id, nat>, duties: seq<Duty>, news: map<Id, nat>): map<Id, nat> {
    if duties == [] then rank
    else
      var id := duties[|duties| - 1].spec.id;
      Override(rank, duties[..|duties| - 1], news)[id := if id in news then news[id] else 0]
  }

  lemma {:induction false} OverrideHas(rank: map<Id, nat>, duties: seq<Duty>, news: map<Id, nat>, id: Id)
    ensures id in Override(rank, duties, news) <==> id in rank || InBatch(duties, id)
    ensures id in Override(rank, duties, news) ==>
      Override(rank, duties, news)[id] ==
        if !InBatch(duties, id) then rank[id] else if id in news then news[id] else 0
  {
    if duties != [] {
      var n := |duties| - 1;
      OverrideHas(rank, duties[..n], news, id);
      assert duties == duties[..n] + [duties[n]];
      assert InBatch(duties, id) <==> InBatch(duties[..n], id) || duties[n].spec.id == id;
    }
  }

  // Batches with different ids that are closed and acyclic are so together.
  lemma AcyclicTogether(a: seq<Duty>, b: seq<Duty>)
    requires DistinctIds(a + b) && Closed(a) && Closed(b) && Acyclic(a) && Acyclic(b)
    ensures Closed(a + b) && Acyclic(a + b)
  {
    var r: map<Id, nat> :| RankedBy(a, r);
    var s: map<Id, nat> :| RankedBy(b, s);
    var rank := Override(r, b, s);
    forall duty, dep | duty in a + b && dep in duty.spec.blockedBy
      ensures InBatch(a + b, dep) && duty.spec.id in rank && dep in rank && rank[dep] < rank[duty.spec.id]
    {
      OverrideHas(r, b, s, duty.spec.id);
      OverrideHas(r, b, s, dep);
      var own := if duty in b then b else a;
      assert InBatch(own, dep) && InBatch(own, duty.spec.id);
      NotInBoth(a, b, dep);
      NotInBoth(a, b, duty.spec.id);
      assert forall x :: x in a || x in b ==> x in a + b;
    }
    assert RankedBy(a + b, rank);
  }

  lemma NotInBoth(a: seq<Duty>, b: seq<Duty>, id: Id)
    requires DistinctIds(a + b)
    ensures !(InBatch(a, id) && InBatch(b, id))
  {
    forall i, j | 0 <= i < |a| && 0 <= j < |b| ensures a[i].spec.id != b[j].spec.id {
      assert (a + b)[i] == a[i] && (a + b)[|a| + j] == b[j];
    }
  }

  lemma {:induction false} AllDrainableMeans(run: seq<Action>)
    requires Orderly(run) && AllDrainable(run)
    ensures Closed(EnqueuedDuties(run)) && Acyclic(EnqueuedDuties(run)) && Timed(EnqueuedDuties(run))
  {
    if run == [] {
      assert RankedBy([], map[]);
    } else {
      var n := |run| - 1;
      var before, a := run[..n], run[n];
      var new_ := if a.EnqueueAction? then a.duties else [];
      DistinctPrefix(EnqueuedDuties(before), new_);
      assert forall i | 0 <= i < n :: before[i] == run[i];
      AllDrainableMeans(before);
      assert RankedBy([], map[]);
      assert a.EnqueueAction? ==> Drainable(run[n].duties);
      AcyclicTogether(EnqueuedDuties(before), new_);
    }
  }

  lemma WaitsAreRanked(q: QueueState, h: History, rank: map<Id, nat>)
    requires QueueInv(q, h) && RankedBy(h.order, rank) && Timed(h.order)
    ensures WaitsRankedBy(q, rank) && TimesSet(q)
  {
    forall id, dep ensures RanksWait(q, rank, id, dep) {
      assert IdentifiedAt(q, h, id);
      assert id in h.duties ==> h.duties[id] in h.order;
    }
    forall id
      ensures id in q.heap ==> q.heap[id].waitUntil != ZERO_TIME
      ensures id in q.blocked ==> q.blocked[id].duty.spec.activeTime != ZERO_TIME
    {
      assert IdentifiedAt(q, h, id);
      assert id in h.duties ==> h.duties[id] in h.order;
    }
  }

  lemma DrainableIsClearable(run: seq<Action>)
    requires Orderly(run) && AllDrainable(run)
    ensures Clearable(After(run).q)
  {
    Reachable(run);
    DrainInvReachable(run);
    AllDrainableMeans(run);
    var rank :| RankedBy(EnqueuedDuties(run), rank);
    hide IsRun, After, HistoryOf, EnqueuedDuties, AllDrainable, DrainInv, Releases, QueueInv, TimesSet;
    ReleasesMeans(After(run).q, HistoryOf(run));
    WaitsAreRanked(After(run).q, HistoryOf(run), rank);
  }

  lemma NoDeadlock(run: seq<Action>)
    requires Orderly(run) && AllDrainable(run) && After(run).q.blocked != map[]
    ensures exists id :: Movable(After(run).q, id)
  {
    DrainableIsClearable(run);
    Reachable(run);
    ClearableCanMove(After(run).q, HistoryOf(run));
  }

  ghost predicate NoEnqueues(run: seq<Action>) {
    forall a | a in run :: !a.EnqueueAction?
  }

  lemma Extend(run: seq<Action>, a: Action)
    requires IsRun(run) && Enabled(After(run), a)
    ensures IsRun(run + [a]) && After(run + [a]) == Step(After(run), a)
    ensures WorkDone(run + [a]) == WorkDone(run) + if IsWork(After(run), a) then 1 else 0
    ensures EnqueuedDuties(run + [a]) == EnqueuedDuties(run) + if a.EnqueueAction? then a.duties else []
  {
    assert (run + [a])[..|run|] == run;
  }

  lemma {:induction false} EarliestExists<T>(entries: map<Id, Entry<T>>)
    requires entries != map[]
    ensures exists id :: IsEarliest(entries, id)
    decreases |entries|
  {
    var some :| some in entries;
    var rest := entries - {some};
    assert entries.Keys == rest.Keys + {some};
    if rest == map[] {
      assert IsEarliest(entries, some);
    } else {
      assert |rest.Keys| < |entries.Keys|;
      EarliestExists(rest);
      var other :| IsEarliest(rest, other);
      assert IsEarliest(entries, if Earlier(entries[some].waitUntil, entries[other].waitUntil) then some else other);
    }
  }

  // A run whose outstanding duties can be cleared.
  ghost predicate CanGoOn(run: seq<Action>): (r: bool)
    ensures r ==> IsRun(run)
  {
    Orderly(run) && Clearable(After(run).q)
  }

  // Each step that is not an enqueuing keeps it so.
  lemma GoesOn(run: seq<Action>, a: Action)
    requires CanGoOn(run) && Enabled(After(run), a) && !a.EnqueueAction?
    ensures CanGoOn(run + [a]) && After(run + [a]) == Step(After(run), a)
    ensures WorkDone(run + [a]) == WorkDone(run) + if IsWork(After(run), a) then 1 else 0
  {
    Extend(run, a);
    Reachable(run);
    OrderIsRecorded(run + [a]);
    assert (run + [a])[..|run|] == run && EnqueuedDuties(run + [a]) == EnqueuedDuties(run);
    hide QueueInv, OnTime, Clearable, Step, Enabled, IsRun;
    StepStaysClearable(After(run), HistoryOf(run), a);
  }

  // Any outstanding work can go on: there are steps after which one more piece of work is done.
  lemma WorkGoesOn(run: seq<Action>) returns (steps: seq<Action>)
    requires CanGoOn(run) && WorkLeft(After(run).q) != 0
    ensures NoEnqueues(steps) && CanGoOn(run + steps) && WorkDone(run + steps) == WorkDone(run) + 1
  {
    hide IsRun, After, WorkDone, CanGoOn, Step, WorkLeft;
    var q := After(run).q;
    if q.unack != map[] {
      var id :| id in q.unack;
      GoesOn(run, AckAction(id));
      return [AckAction(id)];
    }
    if q.ready != [] {
      GoesOn(run, DequeueAction);
      return [DequeueAction];
    }
    WorkIsInHeap(run);
    steps := FireEarliest(run);
  }

  lemma WorkIsInHeap(run: seq<Action>)
    requires CanGoOn(run) && WorkLeft(After(run).q) != 0
    requires After(run).q.unack == map[] && After(run).q.ready == []
    ensures After(run).q.heap != map[]
  {
    hide IsRun, After, Clearable, QueueInv, HistoryOf, DistinctIds;
    if After(run).q.blocked != map[] {
      Reachable(run);
      ClearableCanMove(After(run).q, HistoryOf(run));
    }
  }

  lemma FireEarliest(run: seq<Action>) returns (steps: seq<Action>)
    requires CanGoOn(run) && After(run).q.heap != map[]
    ensures NoEnqueues(steps) && CanGoOn(run + steps) && WorkDone(run + steps) == WorkDone(run) + 1
  {
    var s := After(run);
    EarliestExists(s.q.heap);
    var id :| IsEarliest(s.q.heap, id);
    assert TimesSet(s.q);
    var wait := WaitFor(s, id);
    FireIsEnabled(s, id);
    hide *;
    GoesOn(run, Arm(id));
    GoesOn(run + [Arm(id)], wait);
    GoesOn(run + [Arm(id)] + [wait], FireAction);
    steps := [Arm(id)] + [wait] + [FireAction];
    ThreeSteps(run, Arm(id), wait, FireAction);
  }

  // The passing of time until a duty of the heap is due.
  function WaitFor(s: RunState, id: Id): Action
    requires id in s.q.heap
  {
    Tick(if s.q.heap[id].waitUntil <= s.now then s.now else s.q.heap[id].waitUntil)
  }

  lemma FireIsEnabled(s: RunState, id: Id)
    requires IsEarliest(s.q.heap, id) && s.q.heap[id].waitUntil != ZERO_TIME
    ensures Enabled(s, Arm(id)) && !IsWork(s, Arm(id)) && !Arm(id).EnqueueAction?
    ensures var s1, wait := Step(s, Arm(id)), WaitFor(s, id);
      && Enabled(s1, wait) && !IsWork(s1, wait) && !wait.EnqueueAction?
      && Enabled(Step(s1, wait), FireAction) && IsWork(Step(s1, wait), FireAction)
  {
  }

  lemma ThreeSteps(run: seq<Action>, a: Action, b: Action, c: Action)
    requires !a.EnqueueAction? && !b.EnqueueAction? && !c.EnqueueAction?
    ensures NoEnqueues([a] + [b] + [c]) && run + ([a] + [b] + [c]) == run + [a] + [b] + [c]
  {
  }

  lemma {:induction false} AppendingEnqueuesNothing(run: seq<Action>, steps: seq<Action>)
    requires NoEnqueues(steps)
    ensures EnqueuedDuties(run + steps) == EnqueuedDuties(run)
    ensures AllDrainable(run) ==> AllDrainable(run + steps)
  {
    if steps == [] {
      assert run + steps == run;
    } else {
      var n := |steps| - 1;
      assert (run + steps)[..|run| + n] == run + steps[..n];
      assert steps[n] in steps;
      AppendingEnqueuesNothing(run, steps[..n]);
      if AllDrainable(run) {
        forall i | 0 <= i < |run + steps|
          ensures (run + steps)[i].EnqueueAction? ==> Drainable((run + steps)[i].duties)
        {
          assert if i < |run| then (run + steps)[i] == run[i] else (run + steps)[i] in steps;
        }
      }
    }
  }

  lemma NoWorkLeftMeansEmptied(run: seq<Action>)
    requires Orderly(run) && WorkLeft(After(run).q) == 0
    ensures Emptied(After(run).q)
  {
    var q, h := After(run).q, HistoryOf(run);
    Reachable(run);
    forall id ensures id !in q.contexts {
      assert ConservedAt(q, h, id);
    }
  }

  // What is left takes one step less.
  lemma OneMorePiece(run: seq<Action>) returns (steps: seq<Action>)
    requires CanGoOn(run) && WorkLeft(After(run).q) != 0
    ensures NoEnqueues(steps) && CanGoOn(run + steps)
    ensures WorkLeft(After(run + steps).q) == WorkLeft(After(run).q) - 1
  {
    steps := WorkGoesOn(run);
    hide IsRun, After, Clearable, DistinctIds, WorkLeft, WorkDone, EnqueuedDuties;
    AppendingEnqueuesNothing(run, steps);
    WorkAddsUp(run);
    WorkAddsUp(run + steps);
  }

  lemma {:induction false} CanClear(run: seq<Action>) returns (steps: seq<Action>)
    requires CanGoOn(run)
    ensures NoEnqueues(steps) && Orderly(run + steps) && Emptied(After(run + steps).q)
    decreases WorkLeft(After(run).q)
  {
    if WorkLeft(After(run).q) == 0 {
      steps := [];
      assert run + steps == run;
      NoWorkLeftMeansEmptied(run);
    } else {
      var first := OneMorePiece(run);
      hide IsRun, After, Clearable, DistinctIds, WorkLeft, Emptied, EnqueuedDuties;
      var rest := CanClear(run + first);
      steps := first + rest;
      assert run + steps == run + first + rest;
    }
  }

  // Every run on drainable batches can be completed, without further enqueuing, to one that empties the queue.
  lemma CanDrain(run: seq<Action>) returns (steps: seq<Action>)
    requires Orderly(run) && AllDrainable(run)
    ensures NoEnqueues(steps) && IsRun(run + steps) && Emptied(After(run + steps).q)
  {
    DrainableIsClearable(run);
    hide After, Clearable, AllDrainable, Emptied;
    steps := CanClear(run);
  }

  // A run is maximal when no work can be done any more, whatever happens except further enqueuing. Every
  // maximal run on drainable batches took exactly three steps for each duty, and left nothing behind.
  lemma MaximalRunsDrain(run: seq<Action>)
    requires Orderly(run) && AllDrainable(run)
    requires forall steps :: NoEnqueues(steps) && IsRun(run + steps) ==> WorkDone(run + steps) == WorkDone(run)
    ensures WorkDone(run) == 3 * |EnqueuedDuties(run)| && Emptied(After(run).q)
  {
    WorkAddsUp(run);
    DrainableIsClearable(run);
    if WorkLeft(After(run).q) != 0 {
      var steps := WorkGoesOn(run);
      assert false;
    }
    NoWorkLeftMeansEmptied(run);
  }

  // A duty that waits for one that is done, or whose registration with one was lost to another duty.
  ghost predicate Doomed(q: QueueState, h: History, id: Id, dep: Id) {
    && id in q.blocked && dep in q.blocked[id].on
    && (dep in h.acked || (dep in q.dependents && q.dependents[dep] != [id]))
  }

  lemma {:induction false} NewDependentIsNew(q: QueueState, ctx: Context, duties: seq<Duty>, dep: Id)
    requires dep in q.dependents
    ensures var q' := Enqueue(q, ctx, duties);
      && dep in q'.dependents
      && (q'.dependents[dep] == q.dependents[dep]
          || exists duty :: duty in duties && q'.dependents[dep] == [duty.spec.id])
  {
    if duties != [] {
      var n := |duties| - 1;
      assert duties == duties[..n] + [duties[n]];
      NewDependentIsNew(q, ctx, duties[..n], dep);
      AddDependentHas(Enqueue(q, ctx, duties[..n]).dependents, duties[n].spec.blockedBy, duties[n].spec.id, dep);
    }
  }

  lemma EnqueueKeepsDoomed(q: QueueState, h: History, ctx: Context, duties: seq<Duty>, id: Id, dep: Id)
    requires QueueInv(q, h) && Doomed(q, h, id, dep) && DistinctIds(h.order + duties)
    ensures Doomed(Enqueue(q, ctx, duties), RecordEnqueued(h, duties), id, dep)
  {
    assert IdentifiedAt(q, h, id);
    if InBatch(duties, id) {
      NewIdIsNew(h, duties, id);
    }
    OthersStayBlocked(q, ctx, duties, id);
    RecordingKeeps(h, duties);
    if dep in q.dependents {
      NewDependentIsNew(q, ctx, duties, dep);
    }
  }

  lemma StepKeepsDoomed(s: RunState, h: History, a: Action, id: Id, dep: Id)
    requires QueueInv(s.q, h) && Doomed(s.q, h, id, dep) && Enabled(s, a)
    requires DistinctIds(Advance(h, s.q, a).order)
    ensures Doomed(Step(s, a).q, Advance(h, s.q, a), id, dep)
  {
    match a
    case EnqueueAction(ctx, duties) =>
      RecordedInOrder(h, duties);
      EnqueueKeepsDoomed(s.q, h, ctx, duties, id, dep);
    case AckAction(acked) =>
      if acked in s.q.unack {
        AckKeepsDoomed(s.q, h, acked, id, dep);
      }
    case _ =>
  }

  lemma ReleaseKeepsWaiting(q: QueueState, acked: Id, x: Id, id: Id, dep: Id)
    requires x in q.blocked && id in q.blocked && dep in q.blocked[id].on && (x == id ==> dep != acked)
    ensures ReleaseOne(q, acked, x).dependents == q.dependents
    ensures id in ReleaseOne(q, acked, x).blocked && dep in ReleaseOne(q, acked, x).blocked[id].on
  {
    if x == id {
      assert dep in q.blocked[id].on - {acked};
    }
  }

  lemma AckKeepsDoomed(q: QueueState, h: History, acked: Id, id: Id, dep: Id)
    requires QueueInv(q, h) && Doomed(q, h, id, dep) && acked in q.unack
    ensures Doomed(Ack(q, acked).0, RecordAcked(h, acked), id, dep)
  {
    assert ConservedAt(q, h, acked);
    AckSucceeds(q, h, acked);
    if acked in q.dependents {
      DependentFound(q, h, acked);
      hide QueueInv, Ack, Release, ReleaseOne;
      assert q.dependents[acked] == [q.dependents[acked][0]];
      ReleaseKeepsWaiting(Retire(q, acked), acked, q.dependents[acked][0], id, dep);
    }
  }

  lemma {:induction false} OrderlyPrefix(run: seq<Action>, n: nat)
    requires Orderly(run) && n <= |run|
    ensures Orderly(run[..n])
  {
    if n < |run| {
      var last := |run| - 1;
      DistinctPrefix(EnqueuedDuties(run[..last]), if run[last].EnqueueAction? then run[last].duties else []);
      OrderlyPrefix(run[..last], n);
      assert run[..last][..n] == run[..n];
    } else {
      assert run[..n] == run;
    }
  }

  // A doomed duty never runs, whatever happens later.
  lemma {:induction false} DoomedForever(run: seq<Action>, more: seq<Action>, id: Id, dep: Id)
    requires Orderly(run + more) && IsRun(run) && Doomed(After(run).q, HistoryOf(run), id, dep)
    ensures Doomed(After(run + more).q, HistoryOf(run + more), id, dep)
  {
    if more == [] {
      assert run + more == run;
    } else {
      var n := |more| - 1;
      var before, a := run + more[..n], more[n];
      assert (run + more)[..|run| + n] == before;
      DistinctPrefix(EnqueuedDuties(before), if a.EnqueueAction? then a.duties else []);
      DoomedForever(run, more[..n], id, dep);
      Reachable(before);
      OrderIsRecorded(run + more);
      hide QueueInv, Doomed;
      StepKeepsDoomed(After(before), HistoryOf(before), a, id, dep);
    }
  }

  lemma {:induction false} LastToName(duties: seq<Duty>, j: nat, dep: Id) returns (k: nat)
    requires j < |duties| && dep in duties[j].spec.blockedBy
    ensures j <= k < |duties| && dep in duties[k].spec.blockedBy
    ensures forall l | k < l < |duties| :: dep !in duties[l].spec.blockedBy
    decreases |duties| - j
  {
    if l :| j < l < |duties| && dep in duties[l].spec.blockedBy {
      k := LastToName(duties, l, dep);
    } else {
      k := j;
    }
  }

  // A duty enqueued after one of its dependencies was acknowledged stays blocked, whatever happens later.
  lemma LateNeverReleased(run: seq<Action>, ctx: Context, duties: seq<Duty>, i: nat, dep: Id, more: seq<Action>)
    requires IsRun(run) && i < |duties| && dep in duties[i].spec.blockedBy && Acknowledged(run, dep)
    requires Orderly(run + [EnqueueAction(ctx, duties)] + more)
    ensures duties[i].spec.id in After(run + [EnqueueAction(ctx, duties)] + more).q.blocked
  {
    var a, id := EnqueueAction(ctx, duties), duties[i].spec.id;
    var late := run + [a];
    OrderlyPrefix(late + more, |late|);
    assert (late + more)[..|late|] == late && late[..|run|] == run;
    DistinctPrefix(EnqueuedDuties(run), duties);
    Reachable(run);
    AcknowledgedMeans(run, dep);
    RecordingKeeps(HistoryOf(run), duties);
    DistinctSuffix(EnqueuedDuties(run), duties);
    assert InBatch(duties, id);
    NewIdIsNew(HistoryOf(run), duties, id);
    assert ConservedAt(After(run).q, HistoryOf(run), id);
    MemberBlocked(After(run).q, ctx, duties, i);
    assert Doomed(After(late).q, HistoryOf(late), id, dep);
    hide QueueInv, HistoryOf, IsRun, EnqueuedDuties;
    DoomedForever(late, more, id, dep);
  }

  // Of two duties of a batch that name the same dependency, the first is doomed.
  lemma SharingDooms(ctx: Context, duties: seq<Duty>, i: nat, j: nat, dep: Id)
    requires DistinctIds(duties) && Share(duties, i, j, dep)
    ensures IsRun([EnqueueAction(ctx, duties)])
    ensures var run := [EnqueueAction(ctx, duties)];
      Doomed(After(run).q, HistoryOf(run), duties[i].spec.id, dep)
  {
    var k := LastToName(duties, j, dep);
    MemberBlocked(EMPTY_QUEUE, ctx, duties, i);
    LastNamedWins(EMPTY_QUEUE, ctx, duties, k, dep);
    var a := EnqueueAction(ctx, duties);
    Extend([], a);
    assert [] + [a] == [a];
  }

  lemma OneBatch(ctx: Context, duties: seq<Duty>)
    requires DistinctIds(duties)
    ensures Orderly([EnqueueAction(ctx, duties)]) && EnqueuedDuties([EnqueueAction(ctx, duties)]) == duties
  {
    Extend([], EnqueueAction(ctx, duties));
    assert [] + [EnqueueAction(ctx, duties)] == [EnqueueAction(ctx, duties)];
  }

  lemma SharedNeverDrains(
      run: seq<Action>, ctx: Context, duties: seq<Duty>, i: nat, j: nat, dep: Id, steps: seq<Action>)
    requires DistinctIds(duties) && Share(duties, i, j, dep)
    requires run == [EnqueueAction(ctx, duties)] && NoEnqueues(steps) && IsRun(run + steps)
    ensures !Emptied(After(run + steps).q)
  {
    hide *;
    var id := SharedIsDoomed(run, ctx, duties, i, j, dep);
    DoomedNeverEmpties(run, steps, id, dep);
  }

  lemma SharedIsDoomed(run: seq<Action>, ctx: Context, duties: seq<Duty>, i: nat, j: nat, dep: Id) returns (id: Id)
    requires DistinctIds(duties) && Share(duties, i, j, dep) && run == [EnqueueAction(ctx, duties)]
    ensures Orderly(run) && Doomed(After(run).q, HistoryOf(run), id, dep)
  {
    hide IsRun, After, HistoryOf, EnqueuedDuties, Doomed, DistinctIds;
    OneBatch(ctx, duties);
    SharingDooms(ctx, duties, i, j, dep);
    id := duties[i].spec.id;
  }

  lemma DoomedNeverEmpties(run: seq<Action>, steps: seq<Action>, id: Id, dep: Id)
    requires Orderly(run) && Doomed(After(run).q, HistoryOf(run), id, dep)
    requires NoEnqueues(steps) && IsRun(run + steps)
    ensures !Emptied(After(run + steps).q)
  {
    hide IsRun, After, HistoryOf, EnqueuedDuties, NoEnqueues, DistinctIds;
    AppendingEnqueuesNothing(run, steps);
    DoomedForever(run, steps, id, dep);
  }

  lemma UnsharedDrains(run: seq<Action>, ctx: Context, duties: seq<Duty>) returns (steps: seq<Action>)
    requires DistinctIds(duties) && Drainable(duties) && run == [EnqueueAction(ctx, duties)]
    ensures NoEnqueues(steps) && IsRun(run + steps) && Emptied(After(run + steps).q)
  {
    OneBatch(ctx, duties);
    steps := CanDrain(run);
  }

  // Two inputs that the queue never finishes: two duties that name a third, and a duty enqueued after the
  // one it names was acknowledged.

  const DUTY_A := DutySpec([1], 0, 0, 1, Attestation(0, 1, 1), 0, [])
  const DUTY_B := DutySpec([2], 0, 0, 2, AttestationAggregate([]), 0, [[1]])
  const DUTY_C := DutySpec([3], 0, 0, 2, AttestationAggregate([]), 0, [[1]])

  lemma SharedExample(run: seq<Action>, a: Duty, b: Duty, c: Duty, steps: seq<Action>)
    requires a.spec == DUTY_A && b.spec == DUTY_B && c.spec == DUTY_C
    requires run == [EnqueueAction(0, [a, b, c])] && NoEnqueues(steps) && IsRun(run + steps)
    ensures DistinctIds([a, b, c]) && Closed([a, b, c]) && Acyclic([a, b, c]) && Timed([a, b, c])
    ensures !Emptied(After(run + steps).q)
  {
    var duties := [a, b, c];
    assert duties[0] == a && InBatch(duties, DUTY_A.id);
    assert RankedBy(duties, map[DUTY_A.id := 0, DUTY_B.id := 1, DUTY_C.id := 1]);
    assert Share(duties, 1, 2, DUTY_A.id);
    hide IsRun, After, Emptied, NoEnqueues;
    SharedNeverDrains(run, 0, duties, 1, 2, DUTY_A.id, steps);
  }

  // The steps that bring one duty to its end.
  function Alone(a: Duty): seq<Action> {
    [EnqueueAction(0, [a])] + [Arm(DUTY_A.id)] + [Tick(1)] + [FireAction] + [DequeueAction] + [AckAction(DUTY_A.id)]
  }

  lemma AloneStarts(a: Duty)
    ensures var r := [EnqueueAction(0, [a])];
      IsRun(r) && After(r) == START.(q := EnqueueOne(EMPTY_QUEUE, 0, a)) && EnqueuedDuties(r) == [a]
  {
    OneBatch(0, [a]);
    Extend([], EnqueueAction(0, [a]));
    assert [] + [EnqueueAction(0, [a])] == [EnqueueAction(0, [a])];
    assert [a][..0] == [] && Enqueue(EMPTY_QUEUE, 0, []) == EMPTY_QUEUE;
  }

  lemma AloneIsRun(a: Duty)
    requires a.spec == DUTY_A
    ensures IsRun(Alone(a)) && Acknowledged(Alone(a), DUTY_A.id) && EnqueuedDuties(Alone(a)) == [a]
  {
    hide IsRun, After, EnqueuedDuties, WorkDone, Acknowledged;
    var r := [EnqueueAction(0, [a])];
    AloneStarts(a);
    assert After(r).q.heap == map[DUTY_A.id := Entry(a, 1)];
    Extend(r, Arm(DUTY_A.id));
    Extend(r + [Arm(DUTY_A.id)], Tick(1));
    Extend(r + [Arm(DUTY_A.id)] + [Tick(1)], FireAction);
    var fired := r + [Arm(DUTY_A.id)] + [Tick(1)] + [FireAction];
    Extend(fired, DequeueAction);
    Extend(fired + [DequeueAction], AckAction(DUTY_A.id));
    LastIsAcked(fired + [DequeueAction], DUTY_A.id);
  }

  lemma LastIsAcked(run: seq<Action>, id: Id)
    requires IsRun(run) && id in After(run).q.unack
    ensures Acknowledged(run + [AckAction(id)], id)
  {
    var all := run + [AckAction(id)];
    assert all[..|run|] == run && AckedAt(all, |run|, id);
  }

  lemma LateExample(a: Duty, b: Duty, more: seq<Action>)
    requires a.spec == DUTY_A && b.spec == DUTY_B
    requires Orderly(Alone(a) + [EnqueueAction(0, [b])] + more)
    ensures DUTY_B.id in After(Alone(a) + [EnqueueAction(0, [b])] + more).q.blocked
  {
    AloneIsRun(a);
    hide IsRun, After, Acknowledged, Alone, DistinctIds;
    LateNeverReleased(Alone(a), 0, [b], 0, DUTY_A.id, more);
  }
}
