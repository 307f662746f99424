/**
 The whole system: traces in which every plan comes from the scheduler. Nothing is assumed of the plans
 but that no id is generated twice.
 */
module EndToEnd {
  import opened Types
  import opened Duties
  import opened DelayHeaps
  import opened Schedulers
  import opened Plans
  import opened QueueSpec
  import opened QueueRuns
  import opened QueueSafety
  import opened QueueDrain
  import opened QueueProgress
  import opened QueueExact
  import opened PlanDraining
  import opened Protocol

  // What the scheduler was given to make one plan.
  datatype Epoch = Epoch(env: Env, spec: Spec, eval: Evaluation, now: Time)

  ghost predicate PlanOf(epoch: Epoch, plan: seq<Duty>) {
    IsPlan(epoch.env, epoch.spec, epoch.eval, epoch.now, plan)
  }

  function IdOf(epoch: Epoch, k: nat): Id {
    epoch.env.newId(k)
  }

  ghost predicate FreshIds(epochs: seq<Epoch>) {
    forall i, j, k: nat, l: nat | 0 <= i < |epochs| && 0 <= j < |epochs| && IdOf(epochs[i], k) == IdOf(epochs[j], l) ::
      i == j && k == l
  }

  // The plan that the trace enqueues at position i, if any, is that of epochs[i].
  ghost predicate Scheduled(trace: seq<Event>, epochs: seq<Epoch>) {
    && FreshIds(epochs)
    && forall i | 0 <= i < |trace| && trace[i].EpochEnqueue? :: i < |epochs| && PlanOf(epochs[i], trace[i].plan)
  }

  lemma EpochHasUniqueIds(epochs: seq<Epoch>, i: nat)
    requires FreshIds(epochs) && i < |epochs|
    ensures UniqueIds(epochs[i].env)
  {
    var e := epochs[i];
    forall k: nat, l: nat | e.env.newId(k) == e.env.newId(l) ensures k == l {
      assert IdOf(e, k) == IdOf(e, l);
    }
  }

  lemma PlanIdsComeFrom(epoch: Epoch, plan: seq<Duty>, duty: Duty) returns (k: nat)
    requires PlanOf(epoch, plan) && duty in plan
    ensures IdOf(epoch, k) == duty.spec.id
  {
    var at := PlanPositions(epoch.env, epoch.spec, epoch.eval, epoch.now, plan);
    var i :| 0 <= i < |plan| && plan[i] == duty;
    assert DutyFits(epoch.env, epoch.spec, epoch.eval, Expand(epoch.env, epoch.spec, epoch.eval).value, at[i]);
    k := at[i];
  }

  // Duties of scheduled plans with the same id are in the same plan.
  lemma SamePlan(trace: seq<Event>, epochs: seq<Epoch>, i: nat, x: Duty, j: nat, y: Duty)
    requires Scheduled(trace, epochs) && i < |trace| && j < |trace|
    requires trace[i].EpochEnqueue? && x in trace[i].plan && trace[j].EpochEnqueue? && y in trace[j].plan
    requires x.spec.id == y.spec.id
    ensures i == j
  {
    var k := PlanIdsComeFrom(epochs[i], trace[i].plan, x);
    var l := PlanIdsComeFrom(epochs[j], trace[j].plan, y);
    assert IdOf(epochs[i], k) == IdOf(epochs[j], l);
  }

  lemma DistinctTogether(a: seq<Duty>, b: seq<Duty>)
    requires DistinctIds(a) && DistinctIds(b)
    requires forall x, y | x in a && y in b :: x.spec.id != y.spec.id
    ensures DistinctIds(a + b)
  {
    var both := a + b;
    forall i, j | 0 <= i < j < |both| ensures both[i].spec.id != both[j].spec.id {
      assert both[i] in (if i < |a| then a else b) && both[j] in (if j < |a| then a else b);
    }
  }

  // Traces of scheduled plans enqueue no id twice: what is proved of orderly traces holds for all of them.
  lemma {:induction false} ScheduledIsOrderly(trace: seq<Event>, epochs: seq<Epoch>)
    requires IsTrace(trace) && Scheduled(trace, epochs)
    ensures OrderlyTrace(trace)
  {
    TraceIsRun(trace);
    if trace != [] {
      var n := |trace| - 1;
      BackgroundDoesNotEnqueue(trace);
      ScheduledIsOrderly(trace[..n], epochs);
      EnqueuedByEvent(trace);
      hide FreshIds, QueueRun, EnqueuedDuties, Possible, SystemAfter, PlanOf;
      if trace[n].EpochEnqueue? {
        NewPlanIsDistinct(trace, epochs);
      } else {
        assert EnqueuedDuties(QueueRun(trace)) == EnqueuedDuties(QueueRun(trace[..n]));
      }
    }
  }

  lemma NewPlanIsDistinct(trace: seq<Event>, epochs: seq<Epoch>)
    requires IsTrace(trace) && Scheduled(trace, epochs) && trace != [] && trace[|trace| - 1].EpochEnqueue?
    requires DistinctIds(EnqueuedDuties(QueueRun(trace[..|trace| - 1])))
    ensures DistinctIds(EnqueuedDuties(QueueRun(trace[..|trace| - 1])) + trace[|trace| - 1].plan)
  {
    var n := |trace| - 1;
    var e, before := epochs[n], EnqueuedDuties(QueueRun(trace[..n]));
    EpochHasUniqueIds(epochs, n);
    PlanHasDistinctIds(e.env, e.spec, e.eval, e.now, trace[n].plan);
    hide FreshIds, QueueRun, EnqueuedDuties, PlanOf, UniqueIds;
    forall x, y | x in before && y in trace[n].plan ensures x.spec.id != y.spec.id {
      var i := EnqueuedWith(trace[..n], x);
      if x.spec.id == y.spec.id {
        SamePlan(trace, epochs, i, x, n, y);
      }
    }
    DistinctTogether(before, trace[n].plan);
  }

  // The duties that the scheduler created for the plans of a trace.

  // An id that one of the first n epochs generates.
  ghost predicate ComesFrom(epochs: seq<Epoch>, n: nat, id: Id) {
    exists i: nat, k: nat :: i < n && i < |epochs| && IdOf(epochs[i], k) == id
  }

  lemma AddIssued(epochs: seq<Epoch>, n: nat, issued: map<Id, DutySpec>, ds: seq<DutySpec>)
    returns (more: map<Id, DutySpec>)
    requires FreshIds(epochs) && n < |epochs| && UniqueIds(epochs[n].env)
    requires WellIssued(issued) && WellIssued(IssuedBy(epochs[n].env, ds))
    requires forall id | id in issued :: ComesFrom(epochs, n, id)
    ensures more == issued + IssuedBy(epochs[n].env, ds) && WellIssued(more)
    ensures forall id | id in more :: ComesFrom(epochs, n + 1, id)
    ensures forall plan | FromIssued(plan, issued) || FromIssued(plan, IssuedBy(epochs[n].env, ds)) ::
      FromIssued(plan, more)
  {
    var added := IssuedBy(epochs[n].env, ds);
    forall id | id in added ensures id !in issued && ComesFrom(epochs, n + 1, id) {
      IssuedHas(epochs[n].env, ds, id);
      var l: nat :| l < |ds| && epochs[n].env.newId(l) == id;
      assert IdOf(epochs[n], l) == id;
    }
    more := issued + added;
    hide WellIssued, FromIssued;
    forall plan ensures FromIssued(plan, issued) || FromIssued(plan, added) ==> FromIssued(plan, more) {
      IssuedTogether(issued, added, plan);
    }
    IssuedTogether(issued, added, []);
  }

  lemma OneMoreIssued(trace: seq<Event>, before: map<Id, DutySpec>, issued: map<Id, DutySpec>)
    requires trace != [] && PlansAreIssued(trace[..|trace| - 1], before)
    requires forall plan | FromIssued(plan, before) :: FromIssued(plan, issued)
    requires trace[|trace| - 1].EpochEnqueue? ==> FromIssued(trace[|trace| - 1].plan, issued)
    ensures PlansAreIssued(trace, issued)
  {
    hide FromIssued;
    forall i | 0 <= i < |trace| && trace[i].EpochEnqueue? ensures FromIssued(trace[i].plan, issued) {
      if i < |trace| - 1 {
        assert trace[..|trace| - 1][i] == trace[i];
      }
    }
  }

  lemma {:induction false} ScheduledIsIssued(trace: seq<Event>, epochs: seq<Epoch>) returns (issued: map<Id, DutySpec>)
    requires Scheduled(trace, epochs)
    ensures WellIssued(issued) && PlansAreIssued(trace, issued)
    ensures forall id | id in issued :: ComesFrom(epochs, |trace|, id)
  {
    if trace == [] {
      issued := map[];
    } else {
      var n := |trace| - 1;
      issued := ScheduledIsIssued(trace[..n], epochs);
      var before := issued;
      if trace[n].EpochEnqueue? {
        var e := epochs[n];
        EpochHasUniqueIds(epochs, n);
        hide FreshIds, WellIssued, FromIssued, UniqueIds, PlansAreIssued, ComesFrom;
        PlanIsIssued(e.env, e.spec, e.eval, e.now, trace[n].plan);
        issued := AddIssued(epochs, n, before, Expand(e.env, e.spec, e.eval).value);
        OneMoreIssued(trace, before, issued);
      } else {
        OneMoreIssued(trace, before, issued);
      }
    }
  }

  // Whatever the interleaving of epochs and workers: while a worker has an aggregate, the store has the
  // attestation it depends on, for the same slot and validator, with its result set.
  lemma AggregatesFindAttestations(trace: seq<Event>, epochs: seq<Epoch>, id: Id)
    requires IsTrace(trace) && Scheduled(trace, epochs)
    requires id in SystemAfter(trace).workers && SystemAfter(trace).workers[id].duty.spec.job.AttestationAggregate?
    ensures var s := SystemAfter(trace);
      var d := s.workers[id].duty.spec;
      && |d.blockedBy| == 1
      && d.blockedBy[0] in s.store
      && IsAttestationFor(s.store[d.blockedBy[0]].spec, d)
      && s.store[d.blockedBy[0]] in s.results
      && s.results[s.store[d.blockedBy[0]]].AttestationResult?
  {
    ScheduledIsOrderly(trace, epochs);
    var issued := ScheduledIsIssued(trace, epochs);
    hide Scheduled, WellIssued, PlansAreIssued, OrderlyTrace;
    AggregateFindsAttestation(trace, issued, id);
  }

  // Completing everything.

  // Plans are made after Go's zero time.
  ghost predicate OnClock(trace: seq<Event>, epochs: seq<Epoch>)
    requires Scheduled(trace, epochs)
  {
    forall i | 0 <= i < |trace| && trace[i].EpochEnqueue? :: epochs[i].now >= ZERO_TIME
  }

  // Position k of the expansion of an epoch is an aggregate that is left without its attestation.
  ghost predicate CaughtIn(epoch: Epoch, k: nat)
    requires Expand(epoch.env, epoch.spec, epoch.eval).Ok?
  {
    CaughtAt(epoch.spec, epoch.eval, epoch.now, Expand(epoch.env, epoch.spec, epoch.eval).value, k)
  }

  ghost predicate NothingCaught(epoch: Epoch)
    requires Expand(epoch.env, epoch.spec, epoch.eval).Ok?
  {
    forall k: nat :: !CaughtIn(epoch, k)
  }

  // No plan was made between the time an attestation was due and the time its aggregate is.
  ghost predicate NoneCaught(trace: seq<Event>, epochs: seq<Epoch>)
    requires Scheduled(trace, epochs)
  {
    forall i | 0 <= i < |trace| && trace[i].EpochEnqueue? :: NothingCaught(epochs[i])
  }

  lemma DrainableTogether(run: seq<Action>, step: seq<Action>)
    requires AllDrainable(run) && forall a | a in step && a.EnqueueAction? :: Drainable(a.duties)
    ensures AllDrainable(run + step)
  {
    hide Drainable;
    forall i | 0 <= i < |run + step| && (run + step)[i].EnqueueAction? ensures Drainable((run + step)[i].duties) {
      assert (run + step)[i] == if i < |run| then run[i] else step[i - |run|];
    }
  }

  lemma PlanOfEpochIsDrainable(epoch: Epoch, plan: seq<Duty>)
    requires PlanOf(epoch, plan) && NothingCaught(epoch) && epoch.now >= ZERO_TIME && UniqueIds(epoch.env)
    ensures Drainable(plan)
  {
    hide Drainable, UniqueIds, CaughtAt, Expand;
    var ds := Expand(epoch.env, epoch.spec, epoch.eval).value;
    forall k: nat ensures !CaughtAt(epoch.spec, epoch.eval, epoch.now, ds, k) {
      assert !CaughtIn(epoch, k);
    }
    PlanIsDrainable(epoch.env, epoch.spec, epoch.eval, epoch.now, plan);
  }

  lemma {:induction false} ScheduledIsDrainable(trace: seq<Event>, epochs: seq<Epoch>)
    requires IsTrace(trace) && Scheduled(trace, epochs) && OnClock(trace, epochs) && NoneCaught(trace, epochs)
    ensures AllDrainable(QueueRun(trace))
  {
    if trace != [] {
      var n := |trace| - 1;
      BackgroundDoesNotEnqueue(trace);
      ScheduledIsDrainable(trace[..n], epochs);
      hide IsTrace, AllDrainable, FreshIds, UniqueIds, Drainable, PlanOf, NothingCaught;
      if trace[n].EpochEnqueue? {
        EpochHasUniqueIds(epochs, n);
        PlanOfEpochIsDrainable(epochs[n], trace[n].plan);
      }
      DrainableTogether(QueueRun(trace[..n]), QueueStep(trace[n]));
    }
  }

  // No further epoch begins.
  ghost predicate Settling(events: seq<Event>) {
    forall e | e in events :: !e.EpochEnqueue?
  }

  // The duties that are outstanding can be cleared.
  ghost predicate Draining(trace: seq<Event>): (r: bool)
    ensures r ==> IsTrace(trace)
  {
    IsTrace(trace) && CanGoOn(QueueRun(trace))
  }

  ghost function Left(trace: seq<Event>): nat
    requires IsTrace(trace)
  {
    WorkLeft(SystemAfter(trace).run.q)
  }

  lemma ExtendTrace(trace: seq<Event>, e: Event)
    requires IsTrace(trace) && Possible(SystemAfter(trace), e)
    ensures IsTrace(trace + [e]) && SystemAfter(trace + [e]) == Next(SystemAfter(trace), e)
    ensures QueueRun(trace + [e]) == QueueRun(trace) + QueueStep(e)
  {
    assert (trace + [e])[..|trace|] == trace;
  }

  // An event that moves a duty on.
  ghost predicate IsWorkEvent(s: System, e: Event) {
    QueueStep(e) != [] && IsWork(s.run, QueueStep(e)[0])
  }

  lemma GoOn(trace: seq<Event>, e: Event)
    requires Draining(trace) && Possible(SystemAfter(trace), e) && !e.EpochEnqueue?
    ensures Draining(trace + [e]) && SystemAfter(trace + [e]) == Next(SystemAfter(trace), e)
    ensures EnqueuedDuties(QueueRun(trace + [e])) == EnqueuedDuties(QueueRun(trace))
    ensures Left(trace + [e]) == if IsWorkEvent(SystemAfter(trace), e) then Left(trace) - 1 else Left(trace)
  {
    var run := QueueRun(trace);
    ExtendTrace(trace, e);
    TraceIsRun(trace);
    TraceIsRun(trace + [e]);
    StepIsOfQueue(SystemAfter(trace), e);
    hide QueueRun, SystemAfter, IsTrace, Next, Possible, IsWork, Clearable, WorkLeft, EnqueuedDuties, After, IsRun;
    if QueueStep(e) == [] {
      assert QueueRun(trace + [e]) == run;
    } else {
      var a := QueueStep(e)[0];
      assert QueueStep(e) == [a];
      EpochsAloneEnqueue(SystemAfter(trace), e);
      GoesOn(run, a);
      AppendingEnqueuesNothing(run, [a]);
      WorkAddsUp(run);
      WorkAddsUp(run + [a]);
    }
  }

  lemma EpochsAloneEnqueue(s: System, e: Event)
    requires Possible(s, e) && !e.EpochEnqueue?
    ensures forall a | a in QueueStep(e) :: !a.EnqueueAction?
  {
  }

  function SomeResult(job: Job): (result: DutyResult)
    ensures ResultFits(job, result)
  {
    match job
    case BlockProposal => BlockProposalResult([], [])
    case Attestation(_, _, _) => AttestationResult([], Checkpoint([], 0), Checkpoint([], 0))
    case AttestationAggregate(_) => AttestationAggregateResult
    case SyncCommittee => SyncCommitteeResult
    case SyncCommitteeAggregate(_, _) => SyncCommitteeAggregateResult
  }

  ghost predicate OneLess(trace: seq<Event>, events: seq<Event>)
    requires IsTrace(trace)
  {
    && Settling(events) && Draining(trace + events) && Left(trace + events) == Left(trace) - 1
    && EnqueuedDuties(QueueRun(trace + events)) == EnqueuedDuties(QueueRun(trace))
  }

  lemma OneLessLater(trace: seq<Event>, e: Event, rest: seq<Event>)
    requires IsTrace(trace) && IsTrace(trace + [e]) && !e.EpochEnqueue?
    requires EnqueuedDuties(QueueRun(trace + [e])) == EnqueuedDuties(QueueRun(trace))
    requires Left(trace + [e]) == Left(trace) && OneLess(trace + [e], rest)
    ensures OneLess(trace, [e] + rest)
  {
    hide IsTrace, Left, Draining, QueueRun, EnqueuedDuties;
    assert trace + ([e] + rest) == trace + [e] + rest;
  }

  function NextOf(worker: Worker, id: Id): Event {
    match worker.stage
    case Handling => WorkerFinish(id, SomeResult(worker.duty.spec.job))
    case Finished => WorkerUpsert(id)
    case Stored => WorkerAck(id)
  }

  function StepsTo(stage: Stage): nat {
    match stage
    case Handling => 2
    case Finished => 1
    case Stored => 0
  }

  lemma WorkerCanGoOn(s: System, id: Id, e: Event)
    requires id in s.workers && id in s.run.q.unack && e == NextOf(s.workers[id], id)
    ensures Possible(s, e) && !e.EpochEnqueue? && (IsWorkEvent(s, e) <==> s.workers[id].stage == Stored)
    ensures s.workers[id].stage != Stored ==>
      id in Next(s, e).workers && StepsTo(Next(s, e).workers[id].stage) < StepsTo(s.workers[id].stage)
  {
  }

  // A worker can always bring its duty to the end.
  lemma FinishWorker(trace: seq<Event>, id: Id) returns (events: seq<Event>)
    requires Draining(trace) && id in SystemAfter(trace).workers
    ensures OneLess(trace, events)
    decreases StepsTo(SystemAfter(trace).workers[id].stage)
  {
    hide *;
    var worker := SystemAfter(trace).workers[id];
    var e := NextOf(worker, id);
    WorkersHaveUnacked(trace, id);
    WorkerCanGoOn(SystemAfter(trace), id, e);
    GoOn(trace, e);
    if worker.stage == Stored {
      OneLessNow(trace, e);
      events := [e];
    } else {
      var rest := FinishWorker(trace + [e], id);
      OneLessLater(trace, e, rest);
      events := [e] + rest;
    }
  }

  lemma WorkersHaveUnacked(trace: seq<Event>, id: Id)
    requires Draining(trace)
    ensures id in SystemAfter(trace).workers <==> id in SystemAfter(trace).run.q.unack
  {
    SystemReachable(trace);
    assert WorkerInv(SystemAfter(trace), id);
  }

  lemma OneLessNow(trace: seq<Event>, e: Event)
    requires Draining(trace) && Draining(trace + [e]) && !e.EpochEnqueue?
    requires EnqueuedDuties(QueueRun(trace + [e])) == EnqueuedDuties(QueueRun(trace))
    requires Left(trace + [e]) == Left(trace) - 1
    ensures OneLess(trace, [e])
  {
    hide Draining, Left, QueueRun, EnqueuedDuties;
  }

  function ArmEvent(id: Id): Event {
    Background(Arm(id))
  }

  function WaitEvent(s: System, id: Id): Event
    requires id in s.run.q.heap
  {
    Background(WaitFor(s.run, id))
  }

  lemma FireIsPossible(s: System, id: Id)
    requires IsEarliest(s.run.q.heap, id) && s.run.q.heap[id].waitUntil != ZERO_TIME
    ensures Possible(s, ArmEvent(id)) && !IsWorkEvent(s, ArmEvent(id)) && !ArmEvent(id).EpochEnqueue?
    ensures var s1, b := Next(s, ArmEvent(id)), WaitEvent(s, id);
      && Possible(s1, b) && !IsWorkEvent(s1, b) && !b.EpochEnqueue?
      && Possible(Next(s1, b), Background(FireAction)) && IsWorkEvent(Next(s1, b), Background(FireAction))
  {
  }

  lemma FireNext(trace: seq<Event>) returns (events: seq<Event>)
    requires Draining(trace) && SystemAfter(trace).run.q.heap != map[]
    ensures OneLess(trace, events)
  {
    var id := EarliestTimed(trace);
    hide *;
    var s := SystemAfter(trace);
    var a, b, c := ArmEvent(id), WaitEvent(s, id), Background(FireAction);
    FireIsPossible(s, id);
    GoOn(trace, a);
    GoOn(trace + [a], b);
    GoOn(trace + [a] + [b], c);
    OneLessNow(trace + [a] + [b], c);
    OneLessLater(trace + [a], b, [c]);
    OneLessLater(trace, a, [b] + [c]);
    events := [a] + ([b] + [c]);
  }

  lemma EarliestTimed(trace: seq<Event>) returns (id: Id)
    requires Draining(trace) && SystemAfter(trace).run.q.heap != map[]
    ensures IsEarliest(SystemAfter(trace).run.q.heap, id)
    ensures SystemAfter(trace).run.q.heap[id].waitUntil != ZERO_TIME
  {
    TraceIsRun(trace);
    EarliestExists(SystemAfter(trace).run.q.heap);
    id :| IsEarliest(SystemAfter(trace).run.q.heap, id);
    assert TimesSet(SystemAfter(trace).run.q);
  }

  // When no duty is with a worker or ready, one is in the heap.
  lemma HeapHasSome(trace: seq<Event>)
    requires Draining(trace) && Left(trace) != 0
    requires SystemAfter(trace).run.q.unack == map[] && SystemAfter(trace).run.q.ready == []
    ensures SystemAfter(trace).run.q.heap != map[]
  {
    TraceIsRun(trace);
    Reachable(QueueRun(trace));
    hide IsTrace, QueueRun, SystemAfter, QueueInv, Clearable;
    if SystemAfter(trace).run.q.blocked != map[] {
      ClearableCanMove(SystemAfter(trace).run.q, HistoryOf(QueueRun(trace)));
    }
  }

  lemma DequeueIsPossible(s: System)
    requires s.run.q.ready != []
    ensures Possible(s, WorkerDequeue) && IsWorkEvent(s, WorkerDequeue)
  {
  }

  lemma OneStepCloser(trace: seq<Event>) returns (events: seq<Event>)
    requires Draining(trace) && Left(trace) != 0
    ensures OneLess(trace, events)
  {
    hide *;
    var q := SystemAfter(trace).run.q;
    if id :| id in q.unack {
      WorkersHaveUnacked(trace, id);
      events := FinishWorker(trace, id);
    } else if q.ready != [] {
      DequeueIsPossible(SystemAfter(trace));
      GoOn(trace, WorkerDequeue);
      OneLessNow(trace, WorkerDequeue);
      events := [WorkerDequeue];
    } else {
      HeapHasSome(trace);
      events := FireNext(trace);
    }
  }

  // Nothing is left, and no further epoch began.
  ghost predicate Completes(trace: seq<Event>, events: seq<Event>)
    requires IsTrace(trace)
  {
    && Settling(events) && Draining(trace + events) && Left(trace + events) == 0
    && EnqueuedDuties(QueueRun(trace + events)) == EnqueuedDuties(QueueRun(trace))
  }

  lemma CompletesNow(trace: seq<Event>)
    requires Draining(trace) && Left(trace) == 0
    ensures Completes(trace, [])
  {
    hide Draining, Left, QueueRun, EnqueuedDuties;
    assert trace + [] == trace;
  }

  lemma CompletesLater(trace: seq<Event>, first: seq<Event>, rest: seq<Event>)
    requires IsTrace(trace) && OneLess(trace, first) && Completes(trace + first, rest)
    ensures Completes(trace, first + rest)
  {
    hide IsTrace, Draining, Left, QueueRun, EnqueuedDuties;
    assert trace + (first + rest) == trace + first + rest;
  }

  lemma OneLessMeans(trace: seq<Event>, events: seq<Event>)
    requires IsTrace(trace) && OneLess(trace, events)
    ensures Draining(trace + events) && Left(trace + events) == Left(trace) - 1
  {
    hide IsTrace, Draining, Left, QueueRun, EnqueuedDuties;
  }

  lemma {:induction false} Complete(trace: seq<Event>) returns (events: seq<Event>)
    requires Draining(trace)
    ensures Completes(trace, events)
    decreases Left(trace)
  {
    hide *;
    if Left(trace) == 0 {
      CompletesNow(trace);
      events := [];
    } else {
      var first := OneStepCloser(trace);
      OneLessMeans(trace, first);
      var rest := Complete(trace + first);
      CompletesLater(trace, first, rest);
      events := first + rest;
    }
  }

  // Steps that bring everything to its end: no worker is left, the queue is empty, and every duty enqueued
  // so far is in the store with a result of its kind.
  ghost predicate Finishes(trace: seq<Event>, events: seq<Event>)
    requires IsTrace(trace)
  {
    && Settling(events) && IsTrace(trace + events)
    && var s := SystemAfter(trace + events);
      && Emptied(s.run.q) && s.workers == map[]
      && forall duty | duty in EnqueuedDuties(QueueRun(trace)) ::
          duty.spec.id in s.store && s.store[duty.spec.id] == duty && ResultSet(s, duty)
  }

  lemma CompletingFinishes(trace: seq<Event>, events: seq<Event>)
    requires IsTrace(trace) && Completes(trace, events)
    ensures Finishes(trace, events)
  {
    var after := trace + events;
    TraceIsRun(after);
    hide IsTrace, QueueRun, SystemAfter, WorkLeft, EnqueuedDuties, Emptied, Clearable, ResultSet;
    NoWorkLeftMeansEmptied(QueueRun(after));
    NoWorkersLeft(after);
    forall duty | duty in EnqueuedDuties(QueueRun(trace))
      ensures var s := SystemAfter(after);
        duty.spec.id in s.store && s.store[duty.spec.id] == duty && ResultSet(s, duty)
    {
      EverythingIsStored(after, duty);
    }
  }

  // From every state that scheduled plans lead to, the epochs begun so far can be completed.
  lemma EpochsCanComplete(trace: seq<Event>, epochs: seq<Epoch>) returns (events: seq<Event>)
    requires IsTrace(trace) && Scheduled(trace, epochs) && OnClock(trace, epochs) && NoneCaught(trace, epochs)
    ensures Finishes(trace, events)
  {
    ScheduledIsOrderly(trace, epochs);
    ScheduledIsDrainable(trace, epochs);
    hide Scheduled, NoneCaught, IsTrace, QueueRun, Clearable, AllDrainable;
    DrainableIsClearable(QueueRun(trace));
    events := Complete(trace);
    CompletingFinishes(trace, events);
  }

  // The steps of the queue in events that begin no epoch.
  lemma {:induction false} SettlingSteps(trace: seq<Event>, events: seq<Event>) returns (steps: seq<Action>)
    requires IsTrace(trace + events) && Settling(events)
    ensures NoEnqueues(steps) && QueueRun(trace + events) == QueueRun(trace) + steps
  {
    if events == [] {
      steps := [];
      assert trace + events == trace && QueueRun(trace) + [] == QueueRun(trace);
    } else {
      var n := |events| - 1;
      assert (trace + events)[..|trace| + n] == trace + events[..n];
      assert events[n] in events && forall e | e in events[..n] :: e in events;
      var before := SettlingSteps(trace, events[..n]);
      EpochsAloneEnqueue(SystemAfter(trace + events[..n]), events[n]);
      steps := before + QueueStep(events[n]);
      assert QueueRun(trace) + steps == QueueRun(trace) + before + QueueStep(events[n]);
    }
  }

  // Whatever was enqueued, in whatever batches: the system can empty the queue exactly when the queue is clearable.
  lemma SettlesExactlyWhenClearable(trace: seq<Event>)
    requires OrderlyTrace(trace)
    ensures Clearable(SystemAfter(trace).run.q) <==>
      exists events :: Settling(events) && IsTrace(trace + events) && Emptied(SystemAfter(trace + events).run.q)
  {
    TraceIsRun(trace);
    if Clearable(SystemAfter(trace).run.q) {
      hide IsTrace, SystemAfter, Clearable, QueueRun;
      var events := Complete(trace);
      CompletingFinishes(trace, events);
      assert Emptied(SystemAfter(trace + events).run.q);
    }
    forall events | Settling(events) && IsTrace(trace + events) && Emptied(SystemAfter(trace + events).run.q)
      ensures Clearable(SystemAfter(trace).run.q)
    {
      hide Clearable, QueueRun, Emptied, SystemAfter;
      var steps := SettlingSteps(trace, events);
      TraceIsRun(trace + events);
      EmptiedMeansClearable(QueueRun(trace), steps);
    }
  }

  // A caught aggregate stays blocked, whatever epochs follow.
  lemma CaughtStaysBlocked(trace: seq<Event>, epochs: seq<Epoch>, i: nat, k: nat)
    requires IsTrace(trace) && Scheduled(trace, epochs)
    requires i < |trace| && trace[i].EpochEnqueue? && CaughtIn(epochs[i], k)
    ensures IdOf(epochs[i], k) in SystemAfter(trace).run.q.blocked
  {
    var duty, dep := CaughtDangles(epochs, i, trace[i].plan, k);
    ScheduledIsOrderly(trace, epochs);
    PlansAreEnqueued(trace, i, duty);
    hide Scheduled, CaughtIn, PlanOf, IdOf;
    if duty.spec.id !in SystemAfter(trace).run.q.blocked {
      var other := DependencyWasEnqueued(trace, duty, dep);
      var j := EnqueuedWith(trace, other);
      DanglingIsNotEnqueued(trace, epochs, i, k, j, other);
    }
  }

  // The duty that is caught, and the dependency that its plan lacks.
  lemma CaughtDangles(epochs: seq<Epoch>, i: nat, plan: seq<Duty>, k: nat) returns (duty: Duty, dep: Id)
    requires FreshIds(epochs) && i < |epochs| && PlanOf(epochs[i], plan) && CaughtIn(epochs[i], k)
    ensures duty in plan && duty.spec.id == IdOf(epochs[i], k) && dep in duty.spec.blockedBy
    ensures 0 < k && dep == IdOf(epochs[i], k - 1)
    ensures forall other | other in plan :: other.spec.id != dep
  {
    var e := epochs[i];
    var ds := Expand(e.env, e.spec, e.eval).value;
    EpochHasUniqueIds(epochs, i);
    ExpansionFits(e.env, e.spec, e.eval);
    assert DutyFits(e.env, e.spec, e.eval, ds, k) && DutyFits(e.env, e.spec, e.eval, ds, k - 1);
    DanglesExactlyBetween(e.env, e.spec, e.eval, e.now, k);
    var at :| 0 <= at < |plan| && Specs(plan)[at] == ds[k];
    duty, dep := plan[at], ds[k - 1].id;
    forall other | other in plan ensures other.spec.id != dep {
      var j :| 0 <= j < |plan| && plan[j] == other;
      assert Specs(plan)[j] == other.spec;
    }
  }

  // A duty that is not blocked any more had its dependencies acknowledged, and hence enqueued.
  lemma DependencyWasEnqueued(trace: seq<Event>, duty: Duty, dep: Id) returns (other: Duty)
    requires OrderlyTrace(trace) && duty in EnqueuedDuties(QueueRun(trace)) && dep in duty.spec.blockedBy
    requires duty.spec.id !in SystemAfter(trace).run.q.blocked
    ensures other in EnqueuedDuties(QueueRun(trace)) && other.spec.id == dep
  {
    var run := QueueRun(trace);
    TraceIsRun(trace);
    Reachable(run);
    var q, h := After(run).q, HistoryOf(run);
    assert Accounted(q, h, duty.spec.id, dep);
    SinceMeans(run, duty.spec.id, dep);
    SinceIsAcknowledged(run, duty.spec.id, dep);
    AcknowledgedMeans(run, dep);
    assert ConservedAt(q, h, dep);
    other := h.duties[dep];
  }

  lemma DanglingIsNotEnqueued(trace: seq<Event>, epochs: seq<Epoch>, i: nat, k: nat, j: nat, other: Duty)
    requires Scheduled(trace, epochs) && i < |trace| && trace[i].EpochEnqueue? && CaughtIn(epochs[i], k)
    requires j < |trace| && trace[j].EpochEnqueue? && other in trace[j].plan
    ensures 0 < k && other.spec.id != IdOf(epochs[i], k - 1)
  {
    var duty, dep := CaughtDangles(epochs, i, trace[i].plan, k);
    hide CaughtIn, PlanOf;
    var l := PlanIdsComeFrom(epochs[j], trace[j].plan, other);
    assert j == i || IdOf(epochs[j], l) != IdOf(epochs[i], k - 1);
  }

  // The epochs begun so far can be completed exactly when no aggregate was caught, whatever the plans, the
  // workers and the clock have done so far.
  lemma EpochsCompleteExactlyWhenNoneCaught(trace: seq<Event>, epochs: seq<Epoch>)
    requires IsTrace(trace) && Scheduled(trace, epochs) && OnClock(trace, epochs)
    ensures NoneCaught(trace, epochs) <==>
      exists events :: Settling(events) && IsTrace(trace + events) && Emptied(SystemAfter(trace + events).run.q)
  {
    hide IsTrace, SystemAfter, CaughtIn;
    if NoneCaught(trace, epochs) {
      var events := EpochsCanComplete(trace, epochs);
      assert Emptied(SystemAfter(trace + events).run.q);
    }
    forall events | Settling(events) && IsTrace(trace + events) && Emptied(SystemAfter(trace + events).run.q)
      ensures NoneCaught(trace, epochs)
    {
      forall i, k: nat | 0 <= i < |trace| && trace[i].EpochEnqueue? ensures !CaughtIn(epochs[i], k) {
        if CaughtIn(epochs[i], k) {
          SettlingIsScheduled(trace, epochs, events);
          CaughtStaysBlocked(trace + events, epochs, i, k);
        }
      }
    }
  }

  lemma SettlingIsScheduled(trace: seq<Event>, epochs: seq<Epoch>, events: seq<Event>)
    requires Scheduled(trace, epochs) && Settling(events)
    ensures Scheduled(trace + events, epochs)
  {
    var all := trace + events;
    assert forall i | |trace| <= i < |all| :: all[i] == events[i - |trace|] && !all[i].EpochEnqueue?;
  }

  // An epoch that is caught: one attester that is selected, and a plan made 5 seconds into slot 0.

  function Tally(k: nat): Id {
    seq(k + 1, _ => 1)
  }

  const LATE := Epoch(
    Env(Tally, (epoch, account, slot) => Some([]), (epoch, account, slot, sub) => Some([]), signature => 0,
        (k, subs) => []),
    Spec(12, 32, 512, 16, 0, 0),
    Evaluation(0, [AttesterDuty(0, 7, 0, 16, 1)], [], [], 1_000 * SECOND),
    1_005 * SECOND)

  lemma LateIsCaught()
    ensures FreshIds([LATE]) && Expand(LATE.env, LATE.spec, LATE.eval).Ok? && CaughtIn(LATE, 1)
  {
    assert forall k: nat :: |IdOf(LATE, k)| == k + 1;
    var list := LATE.eval.attestation;
    assert list[..0] == [] && |list| == 1;
    var a := list[0];
    assert AddAttestations(LATE.env, LATE.spec, LATE.eval, [], []) == Ok([]);
    assert IsAttestatorAggregate(LATE.env, LATE.spec, 0, 16, 0, 7) == Ok((true, []));
    TimesInRange(LATE.spec, LATE.eval.genesisTime, 0);
  }

  // Whatever follows its plan, its aggregate stays in the queue.
  lemma CaughtExample(ctx: Context, plan: seq<Duty>, events: seq<Event>)
    requires PlanOf(LATE, plan) && Settling(events) && IsTrace([EpochEnqueue(ctx, plan)] + events)
    ensures Tally(1) in SystemAfter([EpochEnqueue(ctx, plan)] + events).run.q.blocked
  {
    LateIsCaught();
    var trace := [EpochEnqueue(ctx, plan)] + events;
    hide IsTrace, SystemAfter, PlanOf, CaughtIn;
    assert Scheduled([EpochEnqueue(ctx, plan)], [LATE]);
    SettlingIsScheduled([EpochEnqueue(ctx, plan)], [LATE], events);
    CaughtStaysBlocked(trace, [LATE], 0, 1);
  }

  lemma NoWorkersLeft(trace: seq<Event>)
    requires OrderlyTrace(trace) && Emptied(SystemAfter(trace).run.q)
    ensures SystemAfter(trace).workers == map[]
  {
    SystemReachable(trace);
    forall id ensures id !in SystemAfter(trace).workers {
      assert WorkerInv(SystemAfter(trace), id);
    }
  }
}
