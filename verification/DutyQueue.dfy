/**
 The duty queue. Each method is one section that the repository runs while it holds the queue's lock;
 its contract says which function of QueueSpec it computes.
 */
module DutyQueues {
  import opened Types
  import opened Duties
  import opened DelayHeaps
  import Q = QueueSpec

  class BlockedDuty {
    const duty: Duty
    var blocked: set<Id>

    constructor (duty: Duty)
      ensures this.duty == duty && blocked == {}
    {
      this.duty, blocked := duty, {};
    }
  }

  class DutyQueue {
    const delayHeap: DelayHeap<Duty>
    var stats: Q.EvalStats
    var unack: map<Id, Duty>
    var ctxMap: map<Id, Q.Context>
    var blocked: map<Id, BlockedDuty>
    var reverseBlockedMap: map<Id, seq<Id>>
    var ready: seq<Duty>

    // The objects in blocked, and what they say.
    ghost var blockers: set<BlockedDuty>
    ghost var waiting: map<Id, Q.Waiting>

    ghost predicate BlockedValid()
      reads `blocked, `blockers, `waiting, blockers
    {
      && waiting.Keys == blocked.Keys
      && forall id | id in blocked ::
          && blocked[id] in blockers
          && blocked[id].duty.spec.id == id
          && waiting[id] == Q.Waiting(blocked[id].duty, blocked[id].blocked)
    }

    ghost predicate Valid()
      reads this, blockers, delayHeap, delayHeap.nodes
    {
      delayHeap.Valid() && BlockedValid()
    }

    ghost function View(): Q.QueueState
      reads this, delayHeap
    {
      Q.QueueState(waiting, reverseBlockedMap, delayHeap.entries, ready, unack, ctxMap, stats)
    }

    constructor ()
      ensures Valid() && fresh(delayHeap) && fresh(delayHeap.nodes) && blockers == {}
      ensures View() == Q.EMPTY_QUEUE
    {
      delayHeap := new DelayHeap();
      stats := Q.EvalStats(0, 0, 0, 0);
      unack, ctxMap, blocked, reverseBlockedMap, ready := map[], map[], map[], map[], [];
      waiting, blockers := map[], {};
    }

    method Enqueue(ctx: Q.Context, duties: seq<Duty>)
      requires Valid()
      modifies this, delayHeap, delayHeap.nodes
      ensures Valid() && fresh(delayHeap.nodes - old(delayHeap.nodes))
      ensures fresh(blockers - old(blockers))
      ensures View() == Q.Enqueue(old(View()), ctx, duties)
    {
      hide DelayHeap.Valid;
      if |duties| == 0 {
        return;
      }
      for i := 0 to |duties|
        invariant Valid() && fresh(delayHeap.nodes - old(delayHeap.nodes))
        invariant fresh(blockers - old(blockers))
        invariant View() == Q.Enqueue(old(View()), ctx, duties[..i])
      {
        assert duties[..i + 1][..i] == duties[..i];
        EnqueueOne(ctx, duties[i]);
      }
      assert duties[..|duties|] == duties;
    }

    // The body of the loop of Enqueue.
    method EnqueueOne(ctx: Q.Context, duty: Duty)
      requires Valid()
      modifies this, delayHeap, delayHeap.nodes
      ensures Valid() && fresh(delayHeap.nodes - old(delayHeap.nodes))
      ensures fresh(blockers - old(blockers))
      ensures View() == Q.EnqueueOne(old(View()), ctx, duty)
    {
      hide DelayHeap.Valid, BlockedValid, Q.AddDependent, Q.Schedule, Q.Elements;
      var id := duty.spec.id;
      if |duty.spec.blockedBy| != 0 {
        EnqueueBlocked(duty);
      } else {
        Schedule(duty);
        stats := stats.(waiting := stats.waiting + 1);
      }
      ctxMap := ctxMap[id := ctx];
    }

    // What EnqueueOne does with a duty that has dependencies.
    method EnqueueBlocked(duty: Duty)
      requires Valid()
      modifies `blocked, `blockers, `waiting, `reverseBlockedMap, `stats
      ensures Valid() && fresh(blockers - old(blockers))
      ensures waiting == old(waiting)[duty.spec.id := Q.Waiting(duty, Q.Elements(duty.spec.blockedBy))]
      ensures reverseBlockedMap == Q.AddDependent(old(reverseBlockedMap), duty.spec.blockedBy, duty.spec.id)
      ensures stats == old(stats).(blocked := old(stats).blocked + |duty.spec.blockedBy|)
    {
      hide DelayHeap.Valid, BlockedValid, Q.AddDependent, Q.Elements;
      Block(duty);
      AddDependent(duty);
      stats := stats.(blocked := stats.blocked + |duty.spec.blockedBy|);
    }

    // Pushes a duty to the delay heap.
    method Schedule(duty: Duty)
      requires delayHeap.Valid()
      modifies delayHeap, delayHeap.nodes
      ensures delayHeap.Valid() && fresh(delayHeap.nodes - old(delayHeap.nodes))
      ensures delayHeap.entries == Q.Schedule(old(delayHeap.entries), duty)
    {
      hide DelayHeap.Valid;
      var ok := delayHeap.Push(HeapNode(duty.spec.id, duty), duty.spec.activeTime);
    }

    // Puts a duty that has dependencies in the map of blocked duties.
    method Block(duty: Duty)
      requires BlockedValid()
      modifies `blocked, `blockers, `waiting
      ensures BlockedValid() && fresh(blockers - old(blockers))
      ensures waiting == old(waiting)[duty.spec.id := Q.Waiting(duty, Q.Elements(duty.spec.blockedBy))]
    {
      var deps := duty.spec.blockedBy;
      var blockedD := new BlockedDuty(duty);
      for i := 0 to |deps|
        modifies blockedD
        invariant blockedD.blocked == Q.Elements(deps[..i])
      {
        blockedD.blocked := blockedD.blocked + {deps[i]};
      }
      assert deps[..|deps|] == deps;
      blocked := blocked[duty.spec.id := blockedD];
      blockers := blockers + {blockedD};
      waiting := waiting[duty.spec.id := Q.Waiting(duty, blockedD.blocked)];
    }

    // The second loop over BlockedBy.
    method AddDependent(duty: Duty)
      modifies `reverseBlockedMap
      ensures reverseBlockedMap == Q.AddDependent(old(reverseBlockedMap), duty.spec.blockedBy, duty.spec.id)
    {
      var deps := duty.spec.blockedBy;
      for i := 0 to |deps|
        invariant reverseBlockedMap == Q.AddDependent(old(reverseBlockedMap), deps[..i], duty.spec.id)
      {
        assert deps[..i + 1][..i] == deps[..i];
        AddDependentOf(deps[i], duty.spec.id);
      }
      assert deps[..|deps|] == deps;
    }

    method AddDependentOf(dep: Id, id: Id)
      modifies `reverseBlockedMap
      ensures reverseBlockedMap == old(reverseBlockedMap)[dep := [id]]
    {
      if dep in reverseBlockedMap {
        reverseBlockedMap := reverseBlockedMap[dep := []];
      }
      var list := if dep in reverseBlockedMap then reverseBlockedMap[dep] else [];
      assert list + [id] == [id];
      reverseBlockedMap := reverseBlockedMap[dep := list + [id]];
    }

    method Dequeue() returns (r: Q.DequeueResult)
      requires Valid()
      modifies this
      ensures Valid() && blockers == old(blockers)
      ensures (View(), r) == Q.Dequeue(old(View()))
      ensures r.Dequeued? ==>
        && old(ready) == [r.duty] + ready && unack == old(unack)[r.duty.spec.id := r.duty]
        && r.duty.spec.id in ctxMap && r.ctx == ctxMap[r.duty.spec.id]
      ensures r.ContextNotFound? ==>
        && old(ready) != [] && r.id == old(ready)[0].spec.id && r.id !in ctxMap
        && ready == old(ready)[1..] && unack == old(unack)[r.id := old(ready)[0]] && stats == old(stats)
    {
      hide DelayHeap.Valid;
      if |ready| == 0 {
        return Q.Wait;
      }
      var duty := ready[0];
      ready := ready[1..];
      unack := unack[duty.spec.id := duty];
      if duty.spec.id !in ctxMap {
        return Q.ContextNotFound(duty.spec.id);
      }
      stats := stats.(unacked := stats.unacked + 1, ready := stats.ready - 1);
      return Q.Dequeued(duty, ctxMap[duty.spec.id]);
    }

    method Ack(dutyID: Id) returns (r: Q.AckResult)
      requires Valid()
      modifies this, blockers, delayHeap, delayHeap.nodes
      ensures Valid() && fresh(delayHeap.nodes - old(delayHeap.nodes)) && blockers == old(blockers)
      ensures (View(), r) == Q.Ack(old(View()), dutyID)
    {
      hide DelayHeap.Valid;
      if dutyID !in unack {
        return Q.NotFound;
      }
      unack := unack - {dutyID};
      ctxMap := ctxMap - {dutyID};
      stats := stats.(unacked := stats.unacked - 1);
      if dutyID !in reverseBlockedMap {
        return Q.Acked;
      }
      r := ReleaseAll(dutyID, reverseBlockedMap[dutyID]);
    }

    // The loop of Ack.
    method ReleaseAll(dutyID: Id, blockedDuties: seq<Id>) returns (r: Q.AckResult)
      requires Valid()
      modifies this, blockers, delayHeap, delayHeap.nodes
      ensures Valid() && fresh(delayHeap.nodes - old(delayHeap.nodes)) && blockers == old(blockers)
      ensures (View(), r) == Q.Release(old(View()), dutyID, blockedDuties)
    {
      hide DelayHeap.Valid;
      for i := 0 to |blockedDuties|
        invariant Valid() && fresh(delayHeap.nodes - old(delayHeap.nodes)) && blockers == old(blockers)
        invariant Q.Release(View(), dutyID, blockedDuties[i..]) == Q.Release(old(View()), dutyID, blockedDuties)
      {
        var duty := blockedDuties[i];
        assert blockedDuties[i..][0] == duty && blockedDuties[i..][1..] == blockedDuties[i + 1..];
        if duty !in blocked {
          return Q.DependentNotFound(duty);
        }
        if dutyID !in blocked[duty].blocked {
          return Q.NotADependency(blocked[duty].duty.spec.id);
        }
        ReleaseOne(dutyID, duty);
      }
      return Q.Acked;
    }

    // The rest of the body of the loop of Ack.
    method ReleaseOne(dutyID: Id, duty: Id)
      requires Valid() && duty in blocked
      modifies this, blocked[duty], delayHeap, delayHeap.nodes
      ensures Valid() && fresh(delayHeap.nodes - old(delayHeap.nodes)) && blockers == old(blockers)
      ensures View() == Q.ReleaseOne(old(View()), dutyID, duty)
    {
      hide DelayHeap.Valid, BlockedValid;
      CrossOut(dutyID, duty);
      if blocked[duty].blocked == {} {
        MoveToHeap(duty);
      }
    }

    // What ReleaseOne does to a duty that waits for nothing any more.
    method MoveToHeap(duty: Id)
      requires Valid() && duty in blocked && duty in waiting && blocked[duty].duty == waiting[duty].duty
      modifies this, delayHeap, delayHeap.nodes
      ensures Valid() && fresh(delayHeap.nodes - old(delayHeap.nodes)) && blockers == old(blockers)
      ensures View() == Q.MoveToHeap(old(View()), duty)
    {
      hide DelayHeap.Valid, BlockedValid;
      var found := blocked[duty];
      Unblock(duty);
      stats := stats.(blocked := stats.blocked - 1, waiting := stats.waiting + 1);
      Schedule(found.duty);
    }

    method CrossOut(dutyID: Id, duty: Id)
      requires BlockedValid() && duty in blocked
      modifies `waiting, blocked[duty]
      ensures BlockedValid() && duty in old(waiting)
      ensures blocked[duty].duty == old(waiting)[duty].duty
      ensures blocked[duty].blocked == old(waiting)[duty].on - {dutyID}
      ensures waiting == old(waiting)[duty := Q.Waiting(blocked[duty].duty, blocked[duty].blocked)]
    {
      var found := blocked[duty];
      assert forall id | id in blocked && id != duty :: blocked[id] != found;
      found.blocked := found.blocked - {dutyID};
      waiting := waiting[duty := Q.Waiting(found.duty, found.blocked)];
    }

    method Unblock(duty: Id)
      requires BlockedValid()
      modifies `blocked, `waiting
      ensures BlockedValid()
      ensures waiting == old(waiting) - {duty}
    {
      blocked := blocked - {duty};
      waiting := waiting - {duty};
    }

    // The duty to launch next and when; None stands for the nil duty and the zero time.
    method NextDelayedEval() returns (next: Option<Entry<Duty>>)
      requires Valid()
      ensures next == None <==> View().heap == map[]
      ensures next != None ==> exists id :: IsEarliest(View().heap, id) && View().heap[id] == next.value
    {
      var n := delayHeap.Length();
      if n == 0 {
        return None;
      }
      var nextEval := delayHeap.Peek();
      if nextEval == null {
        return None;
      }
      return Some(Entry(nextEval.node.value, nextEval.waitUntil));
    }

    // The timer case of the loop over the delay heap, for the duty the timer was set for.
    method Fire(duty: Duty)
      requires Valid()
      modifies this, delayHeap, delayHeap.nodes
      ensures Valid() && delayHeap.nodes <= old(delayHeap.nodes) && blockers == old(blockers)
      ensures View() == Q.Fire(old(View()), duty)
    {
      hide DelayHeap.Valid, BlockedValid;
      var ok := delayHeap.Remove(HeapNode(duty.spec.id, duty));
      stats := stats.(waiting := stats.waiting - 1);
      EnqueueLocked(duty);
    }

    method EnqueueLocked(duty: Duty)
      modifies `stats, `ready
      ensures stats == old(stats).(ready := old(stats).ready + 1) && ready == old(ready) + [duty]
    {
      stats := stats.(ready := stats.ready + 1);
      ready := ready + [duty];
    }
  }
}
