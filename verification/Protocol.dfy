/**
 The server around the queue: epochs that enqueue and then store their plans, and workers that dequeue a
 duty, set its result, store it and acknowledge it. Duties are shared by reference, so setting the result
 of a duty is visible in the store.
 */
module Protocol {
  import opened Types
  import opened Duties
  import opened QueueSpec
  import opened QueueRuns
  import opened QueueSafety
  import opened QueueProgress
  import opened Rows

  // How far the worker that handles a duty has come.
  datatype Stage = Handling | Finished | Stored

  datatype Worker = Worker(duty: Duty, stage: Stage)

  // results is the memory: the results that have been set, by duty.
  datatype System = System(
    run: RunState, workers: map<Id, Worker>, pending: seq<seq<Duty>>, store: map<Id, Duty>,
    results: map<Duty, DutyResult>)

  datatype Event =
    | EpochEnqueue(ctx: Context, plan: seq<Duty>)
    | EpochUpsert(i: nat, ok: bool)
    | WorkerDequeue
    | WorkerFinish(id: Id, result: DutyResult)
    | WorkerUpsert(id: Id)
    | WorkerAck(id: Id)
    | Background(a: Action)

  const BOOT := System(START, map[], [], map[], map[])

  // The step of the queue that an event takes, if any.
  function QueueStep(e: Event): seq<Action> {
    match e
    case EpochEnqueue(ctx, plan) => [EnqueueAction(ctx, plan)]
    case WorkerDequeue => [DequeueAction]
    case WorkerAck(id) => [AckAction(id)]
    case Background(a) => [a]
    case _ => []
  }

  ghost predicate Possible(s: System, e: Event) {
    match e
    case EpochEnqueue(_, _) => true
    case EpochUpsert(i, _) => i < |s.pending|
    case WorkerDequeue => Enabled(s.run, DequeueAction)
    case WorkerFinish(id, result) =>
      id in s.workers && s.workers[id].stage == Handling && ResultFits(s.workers[id].duty.spec.job, result)
    case WorkerUpsert(id) => id in s.workers && s.workers[id].stage == Finished
    case WorkerAck(id) => id in s.workers && s.workers[id].stage == Stored
    case Background(a) => (a.Tick? || a.Arm? || a.Disarm? || a.FireAction?) && Enabled(s.run, a)
  }

  function Upsert(store: map<Id, Duty>, duties: seq<Duty>): map<Id, Duty> {
    if duties == [] then store
    else Upsert(store, duties[..|duties| - 1])[duties[|duties| - 1].spec.id := duties[|duties| - 1]]
  }

  ghost function Next(s: System, e: Event): System
    requires Possible(s, e)
  {
    match e
    case EpochEnqueue(ctx, plan) =>
      s.(run := Step(s.run, EnqueueAction(ctx, plan)), pending := s.pending + [plan])
    case EpochUpsert(i, ok) =>
      s.(pending := s.pending[..i] + s.pending[i + 1..], store := if ok then Upsert(s.store, s.pending[i]) else s.store)
    case WorkerDequeue =>
      var duty := s.run.q.ready[0];
      s.(run := Step(s.run, DequeueAction), workers := s.workers[duty.spec.id := Worker(duty, Handling)])
    case WorkerFinish(id, result) =>
      var duty := s.workers[id].duty;
      s.(workers := s.workers[id := Worker(duty, Finished)], results := s.results[duty := result])
    case WorkerUpsert(id) =>
      var duty := s.workers[id].duty;
      s.(workers := s.workers[id := Worker(duty, Stored)], store := Upsert(s.store, [duty]))
    case WorkerAck(id) =>
      s.(run := Step(s.run, AckAction(id)), workers := s.workers - {id})
    case Background(a) => s.(run := Step(s.run, a))
  }

  ghost predicate IsTrace(trace: seq<Event>)
    decreases |trace|, 0
  {
    trace == [] || (IsTrace(trace[..|trace| - 1]) && Possible(SystemAfter(trace[..|trace| - 1]), trace[|trace| - 1]))
  }

  ghost function SystemAfter(trace: seq<Event>): System
    requires IsTrace(trace)
    decreases |trace|, 1
  {
    if trace == [] then BOOT else Next(SystemAfter(trace[..|trace| - 1]), trace[|trace| - 1])
  }

  // The run of the queue inside a trace.
  function QueueRun(trace: seq<Event>): seq<Action> {
    if trace == [] then [] else QueueRun(trace[..|trace| - 1]) + QueueStep(trace[|trace| - 1])
  }

  lemma StepIsOfQueue(s: System, e: Event)
    requires Possible(s, e)
    ensures if QueueStep(e) == [] then Next(s, e).run == s.run
            else Enabled(s.run, QueueStep(e)[0]) && Next(s, e).run == Step(s.run, QueueStep(e)[0])
  {
  }

  lemma {:induction false} TraceIsRun(trace: seq<Event>)
    requires IsTrace(trace)
    ensures IsRun(QueueRun(trace)) && After(QueueRun(trace)) == SystemAfter(trace).run
  {
    if trace != [] {
      var before, e := trace[..|trace| - 1], trace[|trace| - 1];
      TraceIsRun(before);
      hide After, IsRun, Possible, Next;
      StepIsOfQueue(SystemAfter(before), e);
      if QueueStep(e) != [] {
        Extend(QueueRun(before), QueueStep(e)[0]);
        assert QueueStep(e) == [QueueStep(e)[0]];
      } else {
        assert QueueRun(trace) == QueueRun(before);
      }
    }
  }

  // A trace that enqueues no id twice.
  ghost predicate OrderlyTrace(trace: seq<Event>): (r: bool)
    ensures r ==> IsTrace(trace)
  {
    IsTrace(trace) && Orderly(QueueRun(trace))
  }

  // What holds in every state of the system, given the history of the queue.

  ghost predicate ResultSet(s: System, duty: Duty) {
    duty in s.results && ResultFits(duty.spec.job, s.results[duty])
  }

  // There is a worker for each duty that was handed out and not acknowledged.
  ghost predicate WorkerInv(s: System, id: Id) {
    && (id in s.workers <==> id in s.run.q.unack)
    && (id in s.workers ==>
          && s.workers[id].duty == s.run.q.unack[id]
          && (s.workers[id].stage != Handling ==> ResultSet(s, s.workers[id].duty))
          && (s.workers[id].stage == Stored ==> id in s.store))
  }

  // The store has only duties that were enqueued, and those acknowledged with their results.
  ghost predicate StoreInv(s: System, h: History, id: Id) {
    && (id in s.store ==> id in h.duties && s.store[id] == h.duties[id])
    && (id in h.acked ==> id in s.store && ResultSet(s, s.store[id]))
  }

  ghost predicate PendingInv(s: System, h: History) {
    forall plan, duty | plan in s.pending && duty in plan :: duty.spec.id in h.duties && h.duties[duty.spec.id] == duty
  }

  ghost predicate SystemInv(s: System, h: History) {
    (forall id :: WorkerInv(s, id)) && (forall id :: StoreInv(s, h, id)) && PendingInv(s, h)
  }

  function DutyIdOf(duty: Duty): Id {
    duty.spec.id
  }

  lemma {:induction false} UpsertIsStored(store: map<Id, Duty>, duties: seq<Duty>)
    ensures RowsAfter(DutyIdOf, store, duties, Upsert(store, duties))
  {
    if duties == [] {
      NothingStored(DutyIdOf, store);
    } else {
      var n := |duties| - 1;
      UpsertIsStored(store, duties[..n]);
      OneMoreStored(DutyIdOf, store, duties[..n], duties[n], Upsert(store, duties[..n]));
      assert duties[..n] + [duties[n]] == duties;
    }
  }

  lemma {:induction false} UpsertStores(store: map<Id, Duty>, duties: seq<Duty>, id: Id)
    ensures id in store ==> id in Upsert(store, duties)
    ensures id in Upsert(store, duties) ==>
      (id in store && Upsert(store, duties)[id] == store[id])
      || (exists duty :: duty in duties && duty.spec.id == id && Upsert(store, duties)[id] == duty)
  {
    if duties != [] {
      UpsertStores(store, duties[..|duties| - 1], id);
      assert duties == duties[..|duties| - 1] + [duties[|duties| - 1]];
    }
  }

  lemma EpochUpsertKeeps(s: System, h: History, i: nat, ok: bool)
    requires SystemInv(s, h) && i < |s.pending|
    ensures SystemInv(Next(s, EpochUpsert(i, ok)), h)
  {
    var s' := Next(s, EpochUpsert(i, ok));
    forall id ensures WorkerInv(s', id) && StoreInv(s', h, id) {
      assert WorkerInv(s, id) && StoreInv(s, h, id);
      UpsertStores(s.store, s.pending[i], id);
      assert s.pending[i] in s.pending;
    }
    assert forall plan | plan in s'.pending :: plan in s.pending;
  }

  lemma WorkerUpsertKeeps(s: System, h: History, id: Id)
    requires SystemInv(s, h) && QueueInv(s.run.q, h) && Possible(s, WorkerUpsert(id))
    ensures SystemInv(Next(s, WorkerUpsert(id)), h)
  {
    hide DependenciesKept, Counted, Recorded;
    var s' := Next(s, WorkerUpsert(id));
    var duty := s.workers[id].duty;
    assert WorkerInv(s, id) && IdentifiedAt(s.run.q, h, id) && ConservedAt(s.run.q, h, id);
    assert s'.store == s.store[id := duty] by {
      assert [duty][..0] == [] && Upsert(s.store, []) == s.store;
    }
    forall other ensures WorkerInv(s', other) && StoreInv(s', h, other) {
      assert WorkerInv(s, other) && StoreInv(s, h, other);
    }
  }

  lemma WorkerFinishKeeps(s: System, h: History, id: Id, result: DutyResult)
    requires SystemInv(s, h) && QueueInv(s.run.q, h) && Possible(s, WorkerFinish(id, result))
    ensures SystemInv(Next(s, WorkerFinish(id, result)), h)
  {
    hide DependenciesKept, Counted, Recorded;
    var s' := Next(s, WorkerFinish(id, result));
    assert WorkerInv(s, id) && IdentifiedAt(s.run.q, h, id) && ConservedAt(s.run.q, h, id);
    forall other ensures WorkerInv(s', other) && StoreInv(s', h, other) {
      assert WorkerInv(s, other) && StoreInv(s, h, other);
      assert IdentifiedAt(s.run.q, h, other);
    }
  }

  lemma WorkerDequeueKeeps(s: System, h: History)
    requires SystemInv(s, h) && QueueInv(s.run.q, h) && Possible(s, WorkerDequeue)
    ensures SystemInv(Next(s, WorkerDequeue), h)
  {
    var s' := Next(s, WorkerDequeue);
    DequeueFindsContext(s.run.q, h);
    forall other ensures WorkerInv(s', other) && StoreInv(s', h, other) {
      assert WorkerInv(s, other) && StoreInv(s, h, other);
    }
  }

  lemma WorkerAckKeeps(s: System, h: History, id: Id)
    requires SystemInv(s, h) && QueueInv(s.run.q, h) && Possible(s, WorkerAck(id))
    ensures SystemInv(Next(s, WorkerAck(id)), RecordAcked(h, id))
  {
    hide DependenciesKept, Counted, Recorded;
    var s' := Next(s, WorkerAck(id));
    assert WorkerInv(s, id) && StoreInv(s, h, id) && IdentifiedAt(s.run.q, h, id);
    ReleaseKeepsHeap(Retire(s.run.q, id), id, if id in s.run.q.dependents then s.run.q.dependents[id] else []);
    forall other ensures WorkerInv(s', other) && StoreInv(s', RecordAcked(h, id), other) {
      assert WorkerInv(s, other) && StoreInv(s, h, other);
    }
  }

  lemma EpochEnqueueKeeps(s: System, h: History, ctx: Context, plan: seq<Duty>)
    requires SystemInv(s, h) && QueueInv(s.run.q, h)
    requires QueueInv(Enqueue(s.run.q, ctx, plan), RecordEnqueued(h, plan))
    ensures SystemInv(Next(s, EpochEnqueue(ctx, plan)), RecordEnqueued(h, plan))
  {
    var s', h' := Next(s, EpochEnqueue(ctx, plan)), RecordEnqueued(h, plan);
    RecordedInOrder(h, plan);
    RecordingKeeps(h, plan);
    EnqueueKeepsHeap(s.run.q, ctx, plan);
    forall duty | duty in h.order || duty in plan ensures duty.spec.id in h'.duties && h'.duties[duty.spec.id] == duty {
      assert duty in h'.order;
    }
    forall other ensures WorkerInv(s', other) && StoreInv(s', h', other) {
      assert WorkerInv(s, other) && StoreInv(s, h, other);
      assert other in h.duties ==> h.duties[other] in h.order;
    }
    forall p, duty | p in s'.pending && duty in p ensures duty.spec.id in h'.duties && h'.duties[duty.spec.id] == duty {
      if p in s.pending {
        assert h.duties[duty.spec.id] in h.order;
      }
    }
  }

  lemma BackgroundKeeps(s: System, h: History, a: Action)
    requires SystemInv(s, h) && Possible(s, Background(a))
    ensures SystemInv(Next(s, Background(a)), h)
  {
    var s' := Next(s, Background(a));
    forall other ensures WorkerInv(s', other) && StoreInv(s', h, other) {
      assert WorkerInv(s, other) && StoreInv(s, h, other);
    }
  }

  function NextHistory(h: History, s: System, e: Event): History {
    if QueueStep(e) == [] then h else Advance(h, s.run.q, QueueStep(e)[0])
  }

  lemma RecordedEventKeeps(s: System, h: History, e: Event)
    requires SystemInv(s, h) && QueueInv(s.run.q, h) && Possible(s, e) && (e.EpochEnqueue? || e.WorkerAck?)
    requires QueueInv(Next(s, e).run.q, NextHistory(h, s, e))
    ensures SystemInv(Next(s, e), NextHistory(h, s, e))
  {
    hide SystemInv, QueueInv, Enqueue, Ack, RecordEnqueued, RecordAcked;
    match e
    case EpochEnqueue(ctx, plan) => EpochEnqueueKeeps(s, h, ctx, plan);
    case WorkerAck(id) =>
      WorkerHasUnacked(s, h, id);
      WorkerAckKeeps(s, h, id);
  }

  lemma WorkerHasUnacked(s: System, h: History, id: Id)
    requires SystemInv(s, h) && id in s.workers
    ensures id in s.run.q.unack
  {
    assert WorkerInv(s, id);
  }

  lemma UnrecordedEventKeeps(s: System, h: History, e: Event)
    requires SystemInv(s, h) && QueueInv(s.run.q, h) && Possible(s, e) && (e.WorkerDequeue? || e.Background?)
    ensures SystemInv(Next(s, e), NextHistory(h, s, e))
  {
    hide SystemInv, QueueInv, Next;
    match e
    case WorkerDequeue => WorkerDequeueKeeps(s, h);
    case Background(a) => BackgroundKeeps(s, h, a);
  }

  lemma NextKeeps(s: System, h: History, e: Event)
    requires SystemInv(s, h) && QueueInv(s.run.q, h) && Possible(s, e)
    requires QueueInv(Next(s, e).run.q, NextHistory(h, s, e))
    ensures SystemInv(Next(s, e), NextHistory(h, s, e))
  {
    hide SystemInv, QueueInv, Next, Possible;
    match e
    case EpochUpsert(i, ok) =>
      assert i < |s.pending| by { EpochUpsertIsPossible(s, i, ok); }
      EpochUpsertKeeps(s, h, i, ok);
    case WorkerFinish(id, result) => WorkerFinishKeeps(s, h, id, result);
    case WorkerUpsert(id) => WorkerUpsertKeeps(s, h, id);
    case EpochEnqueue(_, _) => RecordedEventKeeps(s, h, e);
    case WorkerAck(_) => RecordedEventKeeps(s, h, e);
    case _ => UnrecordedEventKeeps(s, h, e);
  }

  lemma EpochUpsertIsPossible(s: System, i: nat, ok: bool)
    requires Possible(s, EpochUpsert(i, ok))
    ensures i < |s.pending|
  {
  }

  lemma PrefixIsOrderly(trace: seq<Event>)
    requires OrderlyTrace(trace) && trace != []
    ensures OrderlyTrace(trace[..|trace| - 1])
  {
    var run, before := QueueRun(trace), QueueRun(trace[..|trace| - 1]);
    TraceIsRun(trace);
    OrderlyPrefix(run, |before|);
    assert run[..|before|] == before;
  }

  // What has happened to the queue in a trace.
  ghost function HistoryOfTrace(trace: seq<Event>): History
    requires IsTrace(trace)
  {
    TraceIsRun(trace);
    HistoryOf(QueueRun(trace))
  }

  lemma HistoryOfNext(trace: seq<Event>)
    requires IsTrace(trace) && trace != []
    ensures var before := trace[..|trace| - 1];
      HistoryOfTrace(trace) == NextHistory(HistoryOfTrace(before), SystemAfter(before), trace[|trace| - 1])
  {
    var before, e := trace[..|trace| - 1], trace[|trace| - 1];
    TraceIsRun(before);
    TraceIsRun(trace);
    if QueueStep(e) == [] {
      assert QueueRun(trace) == QueueRun(before);
    } else {
      assert QueueRun(trace)[..|QueueRun(trace)| - 1] == QueueRun(before);
    }
  }

  // The invariant of the system holds in every state that a trace reaches.
  lemma {:induction false} SystemReachable(trace: seq<Event>)
    requires OrderlyTrace(trace)
    ensures SystemInv(SystemAfter(trace), HistoryOfTrace(trace))
  {
    if trace == [] {
      forall id ensures WorkerInv(BOOT, id) && StoreInv(BOOT, HistoryOfTrace([]), id) {
      }
    } else {
      var before, e := trace[..|trace| - 1], trace[|trace| - 1];
      PrefixIsOrderly(trace);
      SystemReachable(before);
      QueueReachable(before);
      QueueReachable(trace);
      HistoryOfNext(trace);
      hide SystemInv, QueueInv, OnTime, HistoryOfTrace, NextHistory, Next, Possible;
      NextKeeps(SystemAfter(before), HistoryOfTrace(before), e);
    }
  }

  lemma QueueReachable(trace: seq<Event>)
    requires OrderlyTrace(trace)
    ensures QueueInv(SystemAfter(trace).run.q, HistoryOfTrace(trace))
  {
    TraceIsRun(trace);
    Reachable(QueueRun(trace));
  }

  // Main results.

  // An acknowledged duty is in the store with a result of its kind, whatever is stored later.
  lemma AcknowledgedIsStored(trace: seq<Event>, id: Id)
    requires OrderlyTrace(trace) && Acknowledged(QueueRun(trace), id)
    ensures var s := SystemAfter(trace);
      id in s.store && s.store[id].spec.id == id && ResultSet(s, s.store[id])
  {
    TraceIsRun(trace);
    SystemReachable(trace);
    QueueReachable(trace);
    AcknowledgedMeans(QueueRun(trace), id);
    assert StoreInv(SystemAfter(trace), HistoryOfTrace(trace), id);
    assert IdentifiedAt(SystemAfter(trace).run.q, HistoryOfTrace(trace), id);
  }

  // The specifications of all duties that the scheduler has ever created: an aggregate depends on one
  // attestation, for the same slot and validator.
  ghost predicate WellIssued(issued: map<Id, DutySpec>) {
    forall id | id in issued :: issued[id].job.AttestationAggregate? ==>
      && |issued[id].blockedBy| == 1
      && issued[id].blockedBy[0] in issued
      && IsAttestationFor(issued[issued[id].blockedBy[0]], issued[id])
  }

  predicate IsAttestationFor(a: DutySpec, d: DutySpec) {
    a.job.Attestation? && a.slot == d.slot && a.validatorIndex == d.validatorIndex
  }

  ghost predicate FromIssued(duties: seq<Duty>, issued: map<Id, DutySpec>) {
    forall duty | duty in duties :: duty.spec.id in issued && issued[duty.spec.id] == duty.spec
  }

  ghost predicate PlansAreIssued(trace: seq<Event>, issued: map<Id, DutySpec>) {
    forall i | 0 <= i < |trace| && trace[i].EpochEnqueue? :: FromIssued(trace[i].plan, issued)
  }

  lemma EnqueuedByEvent(trace: seq<Event>)
    requires trace != []
    ensures EnqueuedDuties(QueueRun(trace)) == EnqueuedDuties(QueueRun(trace[..|trace| - 1])) +
      match trace[|trace| - 1] {
        case EpochEnqueue(_, plan) => plan
        case Background(a) => if a.EnqueueAction? then a.duties else []
        case _ => []
      }
  {
    var before, step := QueueRun(trace[..|trace| - 1]), QueueStep(trace[|trace| - 1]);
    assert QueueRun(trace) == before + step;
    if step == [] {
      assert before + step == before;
    } else {
      assert step == [step[0]] && (before + step)[..|before|] == before;
    }
  }

  lemma {:induction false} EnqueuedAreIssued(trace: seq<Event>, issued: map<Id, DutySpec>)
    requires PlansAreIssued(trace, issued)
    requires forall i | 0 <= i < |trace| && trace[i].Background? :: !trace[i].a.EnqueueAction?
    ensures FromIssued(EnqueuedDuties(QueueRun(trace)), issued)
  {
    if trace != [] {
      var n := |trace| - 1;
      assert forall i | 0 <= i < n :: trace[..n][i] == trace[i];
      EnqueuedAreIssued(trace[..n], issued);
      EnqueuedByEvent(trace);
      hide QueueRun, EnqueuedDuties;
      assert trace[n].EpochEnqueue? ==> FromIssued(trace[n].plan, issued);
    }
  }

  lemma {:induction false} BackgroundDoesNotEnqueue(trace: seq<Event>)
    requires IsTrace(trace)
    ensures forall i | 0 <= i < |trace| && trace[i].Background? :: !trace[i].a.EnqueueAction?
  {
    if trace != [] {
      var n := |trace| - 1;
      BackgroundDoesNotEnqueue(trace[..n]);
      forall i | 0 <= i < |trace| && trace[i].Background? ensures !trace[i].a.EnqueueAction? {
        if i < n {
          assert trace[..n][i] == trace[i];
        }
      }
    }
  }

  // The step of the queue that enqueues the plan of an event.
  lemma {:induction false} EnqueuedInRun(trace: seq<Event>, i: nat) returns (j: nat)
    requires i < |trace| && trace[i].EpochEnqueue?
    ensures j < |QueueRun(trace)| && QueueRun(trace)[j] == EnqueueAction(trace[i].ctx, trace[i].plan)
  {
    var n := |trace| - 1;
    if i < n {
      j := EnqueuedInRun(trace[..n], i);
    } else {
      j := |QueueRun(trace[..n])|;
    }
  }

  // The plan that a duty was enqueued with.
  lemma {:induction false} EnqueuedWith(trace: seq<Event>, duty: Duty) returns (i: nat)
    requires IsTrace(trace) && duty in EnqueuedDuties(QueueRun(trace))
    ensures i < |trace| && trace[i].EpochEnqueue? && duty in trace[i].plan
  {
    var n := |trace| - 1;
    BackgroundDoesNotEnqueue(trace);
    EnqueuedByEvent(trace);
    hide QueueRun, Possible, SystemAfter;
    if duty in EnqueuedDuties(QueueRun(trace[..n])) {
      i := EnqueuedWith(trace[..n], duty);
    } else {
      i := n;
    }
  }

  lemma {:induction false} PlansAreEnqueued(trace: seq<Event>, i: nat, duty: Duty)
    requires i < |trace| && trace[i].EpochEnqueue? && duty in trace[i].plan
    ensures duty in EnqueuedDuties(QueueRun(trace))
  {
    EnqueuedByEvent(trace);
    hide QueueRun, EnqueuedDuties;
    if i < |trace| - 1 {
      PlansAreEnqueued(trace[..|trace| - 1], i, duty);
    }
  }

  // While a worker has an aggregate, the store has the attestation it depends on, with its result set.
  lemma AggregateFindsAttestation(trace: seq<Event>, issued: map<Id, DutySpec>, id: Id)
    requires OrderlyTrace(trace) && PlansAreIssued(trace, issued) && WellIssued(issued)
    requires id in SystemAfter(trace).workers && SystemAfter(trace).workers[id].duty.spec.job.AttestationAggregate?
    ensures var s := SystemAfter(trace);
      var d := s.workers[id].duty.spec;
      && |d.blockedBy| == 1
      && d.blockedBy[0] in s.store
      && IsAttestationFor(s.store[d.blockedBy[0]].spec, d)
      && s.store[d.blockedBy[0]] in s.results
      && s.results[s.store[d.blockedBy[0]]].AttestationResult?
  {
    var s, h, run := SystemAfter(trace), HistoryOfTrace(trace), QueueRun(trace);
    TraceIsRun(trace);
    SystemReachable(trace);
    QueueReachable(trace);
    assert WorkerInv(s, id) && IdentifiedAt(s.run.q, h, id);
    var duty := s.workers[id].duty;
    BackgroundDoesNotEnqueue(trace);
    EnqueuedAreIssued(trace, issued);
    OrderIsRecorded(run);
    assert duty in h.order;
    var dep := duty.spec.blockedBy[0];
    assert Released(s.run.q, id, duty);
    DependencySafety(run, id, duty);
    SinceIsAcknowledged(run, id, dep);
    AcknowledgedIsStored(trace, dep);
    assert StoreInv(s, h, dep);
    assert s.store[dep] in h.order;
  }

  lemma SinceIsAcknowledged(run: seq<Action>, id: Id, dep: Id)
    requires AcknowledgedSince(run, id, dep)
    ensures Acknowledged(run, dep)
  {
  }

  // When the queue is empty again, everything that was enqueued is in the store with its result.
  lemma EverythingIsStored(trace: seq<Event>, duty: Duty)
    requires OrderlyTrace(trace) && Emptied(SystemAfter(trace).run.q) && duty in EnqueuedDuties(QueueRun(trace))
    ensures var s := SystemAfter(trace);
      s.workers == map[] && duty.spec.id in s.store && s.store[duty.spec.id] == duty && ResultSet(s, duty)
  {
    var s, h, run := SystemAfter(trace), HistoryOfTrace(trace), QueueRun(trace);
    TraceIsRun(trace);
    SystemReachable(trace);
    QueueReachable(trace);
    OrderIsRecorded(run);
    assert ConservedAt(s.run.q, h, duty.spec.id) && StoreInv(s, h, duty.spec.id);
    forall id ensures id !in s.workers {
      assert WorkerInv(s, id);
    }
  }

  // What becomes of plans.

  // Storing a plan stores each of its duties, whatever else it stores.
  lemma PlanIsStored(trace: seq<Event>, i: nat, duty: Duty)
    requires OrderlyTrace(trace) && i < |SystemAfter(trace).pending| && duty in SystemAfter(trace).pending[i]
    ensures var store := Next(SystemAfter(trace), EpochUpsert(i, true)).store;
      duty.spec.id in store && store[duty.spec.id] == duty
  {
    var s, h := SystemAfter(trace), HistoryOfTrace(trace);
    var plan := s.pending[i];
    SystemReachable(trace);
    UpsertIsStored(s.store, plan);
    var k: nat :| k < |plan| && plan[k] == duty;
    var last := LastExists(DutyIdOf, plan, k);
    assert plan in s.pending && plan[last] in plan;
  }

  // What the store has, it keeps.
  lemma {:induction false} StoreKeeps(trace: seq<Event>, n: nat, id: Id)
    requires OrderlyTrace(trace) && n <= |trace| && IsTrace(trace[..n]) && id in SystemAfter(trace[..n]).store
    ensures id in SystemAfter(trace).store && SystemAfter(trace).store[id] == SystemAfter(trace[..n]).store[id]
  {
    if n < |trace| {
      var before, e := trace[..|trace| - 1], trace[|trace| - 1];
      assert before[..n] == trace[..n];
      PrefixIsOrderly(trace);
      StoreKeeps(before, n, id);
      StoreStays(before, trace, id);
    } else {
      assert trace[..n] == trace;
    }
  }

  lemma StoreGrows(s: System, e: Event, id: Id)
    requires Possible(s, e) && id in s.store
    ensures id in Next(s, e).store
  {
    match e
    case EpochUpsert(i, ok) => UpsertStores(s.store, s.pending[i], id);
    case WorkerUpsert(x) => UpsertStores(s.store, [s.workers[x].duty], id);
    case _ =>
  }

  lemma LastEvent(trace: seq<Event>)
    requires IsTrace(trace) && trace != []
    ensures var before, e := trace[..|trace| - 1], trace[|trace| - 1];
      IsTrace(before) && Possible(SystemAfter(before), e) && SystemAfter(trace) == Next(SystemAfter(before), e)
  {
  }

  lemma StoreStays(before: seq<Event>, trace: seq<Event>, id: Id)
    requires OrderlyTrace(trace) && trace != [] && before == trace[..|trace| - 1] && OrderlyTrace(before)
    requires id in SystemAfter(before).store
    ensures id in SystemAfter(trace).store && SystemAfter(trace).store[id] == SystemAfter(before).store[id]
  {
    hide *;
    LastEvent(trace);
    StoreGrows(SystemAfter(before), trace[|trace| - 1], id);
    StoreIsRecorded(before, id);
    StoreIsRecorded(trace, id);
    HistoryStays(before, trace, id);
  }

  lemma StoreIsRecorded(trace: seq<Event>, id: Id)
    requires OrderlyTrace(trace) && id in SystemAfter(trace).store
    ensures id in HistoryOfTrace(trace).duties && SystemAfter(trace).store[id] == HistoryOfTrace(trace).duties[id]
  {
    SystemReachable(trace);
    assert StoreInv(SystemAfter(trace), HistoryOfTrace(trace), id);
  }

  // A duty that was enqueued stays the one with its id.
  lemma HistoryStays(before: seq<Event>, trace: seq<Event>, id: Id)
    requires OrderlyTrace(trace) && trace != [] && before == trace[..|trace| - 1] && OrderlyTrace(before)
    requires id in HistoryOfTrace(before).duties
    ensures id in HistoryOfTrace(trace).duties
    ensures HistoryOfTrace(trace).duties[id] == HistoryOfTrace(before).duties[id]
  {
    HistoryOfNext(trace);
    QueueReachable(before);
    QueueReachable(trace);
    var step := QueueStep(trace[|trace| - 1]);
    if step != [] && step[0].EnqueueAction? {
      RecordedInOrder(HistoryOfTrace(before), step[0].duties);
      assert HistoryOfTrace(before).duties[id] in HistoryOfTrace(trace).order;
    }
  }

  // A plan that was stored stays stored, duty by duty.
  lemma PlanStaysStored(trace: seq<Event>, n: nat, duty: Duty)
    requires OrderlyTrace(trace) && n < |trace| && OrderlyTrace(trace[..n]) && IsTrace(trace[..n + 1])
    requires trace[n].EpochUpsert? && trace[n].ok
    requires trace[n].i < |SystemAfter(trace[..n]).pending| && duty in SystemAfter(trace[..n]).pending[trace[n].i]
    ensures var store := SystemAfter(trace).store; duty.spec.id in store && store[duty.spec.id] == duty
  {
    assert trace[..n + 1][..n] == trace[..n];
    PlanIsStored(trace[..n], trace[n].i, duty);
    StoreKeeps(trace, n + 1, duty.spec.id);
  }

  // The plans that epochs have enqueued, and those they have stored or failed to store.

  function BegunBy(e: Event): seq<seq<Duty>> {
    if e.EpochEnqueue? then [e.plan] else []
  }

  ghost function EndedBy(s: System, e: Event): seq<seq<Duty>>
    requires Possible(s, e)
  {
    if e.EpochUpsert? then [s.pending[e.i]] else []
  }

  function BegunPlans(trace: seq<Event>): seq<seq<Duty>> {
    if trace == [] then [] else BegunPlans(trace[..|trace| - 1]) + BegunBy(trace[|trace| - 1])
  }

  ghost function EndedPlans(trace: seq<Event>): seq<seq<Duty>>
    requires IsTrace(trace)
  {
    if trace == [] then []
    else EndedPlans(trace[..|trace| - 1]) + EndedBy(SystemAfter(trace[..|trace| - 1]), trace[|trace| - 1])
  }

  lemma PendingChanges(s: System, e: Event)
    requires Possible(s, e)
    ensures multiset(EndedBy(s, e)) + multiset(Next(s, e).pending) == multiset(s.pending) + multiset(BegunBy(e))
  {
    if e.EpochUpsert? {
      TakingOne(s.pending, e.i);
    }
  }

  // Every plan is stored once at most, and no other is: those pending are those begun and not ended.
  lemma {:induction false} PendingPlans(trace: seq<Event>)
    requires IsTrace(trace)
    ensures multiset(EndedPlans(trace)) + multiset(SystemAfter(trace).pending) == multiset(BegunPlans(trace))
  {
    hide *;
    PlansUnfold(trace);
    if trace != [] {
      var before, e := trace[..|trace| - 1], trace[|trace| - 1];
      var s := SystemAfter(before);
      PendingPlans(before);
      PendingChanges(s, e);
      AddPlans(EndedPlans(before), EndedBy(s, e), s.pending, Next(s, e).pending, BegunPlans(before), BegunBy(e));
    }
  }

  lemma PlansUnfold(trace: seq<Event>)
    requires IsTrace(trace)
    ensures if trace == [] then EndedPlans(trace) == SystemAfter(trace).pending == BegunPlans(trace) == [] else
      var before, e := trace[..|trace| - 1], trace[|trace| - 1];
      && IsTrace(before) && Possible(SystemAfter(before), e) && SystemAfter(trace) == Next(SystemAfter(before), e)
      && EndedPlans(trace) == EndedPlans(before) + EndedBy(SystemAfter(before), e)
      && BegunPlans(trace) == BegunPlans(before) + BegunBy(e)
  {
  }

  lemma AddPlans(ended: seq<seq<Duty>>, endedNow: seq<seq<Duty>>, pending: seq<seq<Duty>>, pendingNow: seq<seq<Duty>>,
      begun: seq<seq<Duty>>, begunNow: seq<seq<Duty>>)
    requires multiset(ended) + multiset(pending) == multiset(begun)
    requires multiset(endedNow) + multiset(pendingNow) == multiset(pending) + multiset(begunNow)
    ensures multiset(ended + endedNow) + multiset(pendingNow) == multiset(begun + begunNow)
  {
    calc {
      multiset(ended + endedNow) + multiset(pendingNow);
      multiset(ended) + (multiset(endedNow) + multiset(pendingNow));
      (multiset(ended) + multiset(pending)) + multiset(begunNow);
      multiset(begun + begunNow);
    }
  }

  lemma TakingOne(plans: seq<seq<Duty>>, i: nat)
    requires i < |plans|
    ensures multiset(plans) == multiset(plans[..i] + plans[i + 1..]) + multiset{plans[i]}
  {
    assert plans == plans[..i] + [plans[i]] + plans[i + 1..];
  }

  // A duty whose result is set is acknowledged, or with a worker that has handled it.
  ghost predicate ResultInv(s: System, h: History, duty: Duty) {
    duty in s.results ==>
      var id := duty.spec.id;
      && id in h.duties && h.duties[id] == duty
      && (id in h.acked || (id in s.workers && s.workers[id].stage != Handling))
  }

  lemma NextKeepsResults(s: System, h: History, e: Event, duty: Duty)
    requires QueueInv(s.run.q, h) && SystemInv(s, h) && Possible(s, e) && ResultInv(s, h, duty)
    requires var id := duty.spec.id; id in h.duties ==>
      id in NextHistory(h, s, e).duties && NextHistory(h, s, e).duties[id] == h.duties[id]
    ensures ResultInv(Next(s, e), NextHistory(h, s, e), duty)
  {
    assert WorkerFits(s, h, duty.spec.id);
    match e
    case EpochEnqueue(_, plan) => RecordingKeeps(h, plan);
    case WorkerFinish(x, _) =>
      assert WorkerFits(s, h, x);
      FinishKeepsResults(s, h, e, duty);
    case _ => OtherKeepsResults(s, h, e, duty);
  }

  ghost predicate WorkerFits(s: System, h: History, id: Id) {
    WorkerInv(s, id) && ConservedAt(s.run.q, h, id) && IdentifiedAt(s.run.q, h, id)
  }

  lemma FinishKeepsResults(s: System, h: History, e: Event, duty: Duty)
    requires Possible(s, e) && ResultInv(s, h, duty) && WorkerFits(s, h, duty.spec.id)
    requires e.WorkerFinish? && WorkerFits(s, h, e.id)
    ensures ResultInv(Next(s, e), NextHistory(h, s, e), duty)
  {
  }

  lemma OtherKeepsResults(s: System, h: History, e: Event, duty: Duty)
    requires Possible(s, e) && ResultInv(s, h, duty) && WorkerFits(s, h, duty.spec.id)
    requires !e.EpochEnqueue? && !e.WorkerFinish?
    ensures ResultInv(Next(s, e), NextHistory(h, s, e), duty)
  {
    if e.WorkerDequeue? {
      assert s.run.q.ready[0].spec.id in ReadyIds(s.run.q);
    }
  }

  lemma {:induction false} ResultsReachable(trace: seq<Event>, duty: Duty)
    requires OrderlyTrace(trace)
    ensures ResultInv(SystemAfter(trace), HistoryOfTrace(trace), duty)
  {
    hide OrderlyTrace, QueueInv, SystemInv, HistoryOfTrace, NextHistory, Next, Possible, ResultInv;
    if trace == [] {
      NoResults(duty);
    } else {
      var before, e := trace[..|trace| - 1], trace[|trace| - 1];
      PrefixIsOrderly(trace);
      ResultsReachable(before, duty);
      SystemReachable(before);
      QueueReachable(before);
      HistoryOfNext(trace);
      if duty.spec.id in HistoryOfTrace(before).duties {
        HistoryStays(before, trace, duty.spec.id);
      }
      NextKeepsResults(SystemAfter(before), HistoryOfTrace(before), e, duty);
    }
  }

  lemma NoResults(duty: Duty)
    ensures OrderlyTrace([]) && ResultInv(SystemAfter([]), HistoryOfTrace([]), duty)
  {
  }

  // The result that a worker sets for a duty is never replaced.
  lemma {:induction false} ResultsStay(trace: seq<Event>, n: nat, id: Id, result: DutyResult)
    requires OrderlyTrace(trace) && n < |trace| && IsTrace(trace[..n]) && trace[n] == WorkerFinish(id, result)
    requires id in SystemAfter(trace[..n]).workers
    ensures var duty, s := SystemAfter(trace[..n]).workers[id].duty, SystemAfter(trace);
      duty in s.results && s.results[duty] == result
  {
    hide OrderlyTrace, Next, Possible;
    var before, e := trace[..|trace| - 1], trace[|trace| - 1];
    LastEvent(trace);
    if n == |trace| - 1 {
      FinishSets(SystemAfter(before), id, result);
    } else {
      assert before[..n] == trace[..n];
      PrefixIsOrderly(trace);
      ResultsStay(before, n, id, result);
      NotFinishedAgain(before, e, SystemAfter(trace[..n]).workers[id].duty);
    }
  }

  lemma FinishSets(s: System, id: Id, result: DutyResult)
    requires Possible(s, WorkerFinish(id, result))
    ensures var duty, s' := s.workers[id].duty, Next(s, WorkerFinish(id, result));
      duty in s'.results && s'.results[duty] == result
  {
  }

  lemma NotFinishedAgain(trace: seq<Event>, e: Event, duty: Duty)
    requires OrderlyTrace(trace) && Possible(SystemAfter(trace), e) && duty in SystemAfter(trace).results
    ensures var s, s' := SystemAfter(trace), Next(SystemAfter(trace), e);
      duty in s'.results && s'.results[duty] == s.results[duty]
  {
    hide OrderlyTrace, IsTrace, SystemAfter, HistoryOfTrace;
    ResultsReachable(trace, duty);
    SystemReachable(trace);
    QueueReachable(trace);
    var s, h := SystemAfter(trace), HistoryOfTrace(trace);
    if e.WorkerFinish? {
      assert WorkerInv(s, e.id) && ConservedAt(s.run.q, h, e.id) && IdentifiedAt(s.run.q, h, e.id);
    }
  }
}
