/** What holds after every run of the duty queue that enqueues no id twice, in terms of the run's own steps. */
module QueueSafety {
  import opened Types
  import opened Duties
  import opened QueueSpec
  import opened QueueRuns

  ghost predicate EnqueuedAt(run: seq<Action>, i: nat, id: Id)
    requires i < |run|
  {
    run[i].EnqueueAction? && exists duty :: duty in run[i].duties && duty.spec.id == id
  }

  // Step j is a successful acknowledgement of id.
  ghost predicate AckedAt(run: seq<Action>, j: nat, id: Id)
    requires j < |run| && IsRun(run[..j])
  {
    run[j] == AckAction(id) && id in After(run[..j]).q.unack
  }

  lemma {:induction false} PrefixIsRun(run: seq<Action>, n: nat)
    requires IsRun(run) && n <= |run|
    ensures IsRun(run[..n])
  {
    if n < |run| {
      PrefixIsRun(run[..|run| - 1], n);
      assert run[..|run| - 1][..n] == run[..n];
    } else {
      assert run[..n] == run;
    }
  }

  ghost predicate Enqueued(run: seq<Action>, id: Id) {
    exists i: nat :: i < |run| && EnqueuedAt(run, i, id)
  }

  ghost predicate Acknowledged(run: seq<Action>, id: Id) {
    exists j: nat :: j < |run| && IsRun(run[..j]) && AckedAt(run, j, id)
  }

  // dep was acknowledged at a later step than the one that enqueued id.
  ghost predicate AcknowledgedSince(run: seq<Action>, id: Id, dep: Id) {
    exists i: nat, j: nat ::
      i < j < |run| && IsRun(run[..j]) && EnqueuedAt(run, i, id) && AckedAt(run, j, dep)
  }

  lemma {:induction false} RecordedIds(h: History, duties: seq<Duty>, id: Id)
    ensures id in RecordEnqueued(h, duties).duties <==>
      id in h.duties || exists duty :: duty in duties && duty.spec.id == id
  {
    if duties != [] {
      var n := |duties| - 1;
      RecordedIds(h, duties[..n], id);
      assert duties == duties[..n] + [duties[n]];
    }
  }

  lemma {:induction false} RecordingKeeps(h: History, duties: seq<Duty>)
    ensures RecordEnqueued(h, duties).acked == h.acked && RecordEnqueued(h, duties).since == h.since
  {
    if duties != [] {
      RecordingKeeps(h, duties[..|duties| - 1]);
    }
  }

  lemma {:induction false} EnqueuedMeans(run: seq<Action>, id: Id)
    requires IsRun(run)
    ensures id in HistoryOf(run).duties <==> Enqueued(run, id)
  {
    if run != [] {
      var n := |run| - 1;
      var before, a := run[..n], run[n];
      EnqueuedMeans(before, id);
      if a.EnqueueAction? {
        RecordedIds(HistoryOf(before), a.duties, id);
      }
      forall i: nat | i < n ensures EnqueuedAt(run, i, id) <==> EnqueuedAt(before, i, id) {
        assert before[i] == run[i];
      }
      if id in HistoryOf(run).duties {
        if id in HistoryOf(before).duties {
          var i: nat :| i < |before| && EnqueuedAt(before, i, id);
          assert EnqueuedAt(run, i, id);
        } else {
          assert EnqueuedAt(run, n, id);
        }
      }
    }
  }

  lemma AckedAtPrefix(run: seq<Action>, n: nat, j: nat, id: Id)
    requires IsRun(run) && j < n <= |run| && IsRun(run[..j]) && IsRun(run[..n][..j])
    ensures AckedAt(run, j, id) <==> AckedAt(run[..n], j, id)
  {
    assert run[..n][..j] == run[..j];
  }

  lemma {:induction false} AcknowledgedMeans(run: seq<Action>, id: Id)
    requires IsRun(run)
    ensures id in HistoryOf(run).acked <==> Acknowledged(run, id)
  {
    if run != [] {
      var n := |run| - 1;
      var before, a := run[..n], run[n];
      AcknowledgedMeans(before, id);
      if a.EnqueueAction? {
        RecordingKeeps(HistoryOf(before), a.duties);
      }
      forall j: nat | j < n
        ensures IsRun(run[..j]) && IsRun(before[..j])
        ensures AckedAt(run, j, id) <==> AckedAt(before, j, id)
      {
        PrefixIsRun(run, j);
        PrefixIsRun(before, j);
        AckedAtPrefix(run, n, j, id);
      }
      if id in HistoryOf(run).acked {
        if id in HistoryOf(before).acked {
          var j: nat :| j < |before| && IsRun(before[..j]) && AckedAt(before, j, id);
          assert AckedAt(run, j, id);
        } else {
          assert AckedAt(run, n, id);
        }
      }
    }
  }

  lemma {:induction false} SinceMeans(run: seq<Action>, id: Id, dep: Id)
    requires IsRun(run) && (id, dep) in HistoryOf(run).since
    ensures AcknowledgedSince(run, id, dep)
  {
    var n := |run| - 1;
    var before, a := run[..n], run[n];
    if a.EnqueueAction? {
      RecordingKeeps(HistoryOf(before), a.duties);
    }
    if (id, dep) in HistoryOf(before).since {
      SinceMeans(before, id, dep);
      var i: nat, j: nat :|
        i < j < |before| && IsRun(before[..j]) && EnqueuedAt(before, i, id) && AckedAt(before, j, dep);
      PrefixIsRun(run, j);
      AckedAtPrefix(run, n, j, dep);
      assert EnqueuedAt(run, i, id) && AckedAt(run, j, dep);
    } else {
      EnqueuedMeans(before, id);
      var i: nat :| i < |before| && EnqueuedAt(before, i, id);
      assert EnqueuedAt(run, i, id) && AckedAt(run, n, dep);
    }
  }

  // Main results.

  // In how many of the four places of the queue an id is.
  ghost function Places(q: QueueState, id: Id): nat {
    (if id in q.blocked then 1 else 0) + (if id in q.heap then 1 else 0)
    + (if id in ReadyIds(q) then 1 else 0) + (if id in q.unack then 1 else 0)
  }

  // A duty that was enqueued and not acknowledged is in exactly one place, any other in none, and the
  // map of contexts has exactly the former; nothing is ready twice.
  lemma Conservation(run: seq<Action>, id: Id)
    requires Orderly(run)
    ensures Places(After(run).q, id) == if Enqueued(run, id) && !Acknowledged(run, id) then 1 else 0
    ensures id in After(run).q.contexts <==> Enqueued(run, id) && !Acknowledged(run, id)
    ensures DistinctIds(After(run).q.ready)
  {
    Reachable(run);
    assert ConservedAt(After(run).q, HistoryOf(run), id);
    EnqueuedMeans(run, id);
    AcknowledgedMeans(run, id);
  }

  // The duty with the given id, once it has left the blocked duties and until it is acknowledged.
  ghost predicate Released(q: QueueState, id: Id, duty: Duty) {
    || (id in q.heap && q.heap[id].value == duty)
    || (duty in q.ready && duty.spec.id == id)
    || (id in q.unack && q.unack[id] == duty)
  }

  // A duty leaves the blocked duties only when each of its dependencies was acknowledged after it was
  // enqueued; and until then it waits for at least one.
  lemma DependencySafety(run: seq<Action>, id: Id, duty: Duty)
    requires Orderly(run)
    ensures Released(After(run).q, id, duty) ==>
      forall dep | dep in duty.spec.blockedBy :: AcknowledgedSince(run, id, dep)
    ensures id in After(run).q.blocked ==> After(run).q.blocked[id].on != {}
  {
    var q, h := After(run).q, HistoryOf(run);
    Reachable(run);
    if Released(q, id, duty) {
      assert duty in q.ready ==> duty.spec.id in ReadyIds(q);
      assert ConservedAt(q, h, id) && IdentifiedAt(q, h, id);
      forall dep | dep in duty.spec.blockedBy ensures AcknowledgedSince(run, id, dep) {
        assert Accounted(q, h, id, dep);
        SinceMeans(run, id, dep);
      }
    }
  }

  // The error returns for a missing context and for an inconsistent dependent are unreachable, Ack only
  // rejects ids that are not unacknowledged, and the removal whose error the timer case ignores succeeds.
  lemma NoErrorReturns(run: seq<Action>, id: Id)
    requires Orderly(run)
    ensures !Dequeue(After(run).q).1.ContextNotFound?
    ensures Ack(After(run).q, id).1 == if id in After(run).q.unack then Acked else NotFound
    ensures After(run).armed.Some? ==> After(run).armed.value.value.spec.id in After(run).q.heap
  {
    var q := After(run).q;
    Reachable(run);
    if q.ready != [] {
      DequeueFindsContext(q, HistoryOf(run));
    }
    if id in q.unack {
      AckSucceeds(q, HistoryOf(run), id);
    }
  }

  // Nothing is ready, or handed out, before its active time.
  lemma NeverEarly(run: seq<Action>)
    requires Orderly(run)
    ensures forall duty | duty in After(run).q.ready :: duty.spec.activeTime <= After(run).now
    ensures forall id | id in After(run).q.unack :: After(run).q.unack[id].spec.activeTime <= After(run).now
  {
    Reachable(run);
  }

  // Three counters are sizes; the fourth also counts all but one of the dependencies of every duty ever enqueued.
  lemma Counters(run: seq<Action>)
    requires Orderly(run)
    ensures var q := After(run).q;
      q.stats == EvalStats(|q.ready|, |q.unack|, |q.blocked| + Excess(EnqueuedDuties(run)), |q.heap|)
  {
    Reachable(run);
  }
}
