# A model of the duty pipeline of eth2-validator

The validator turns each epoch into a plan of duties, runs every duty no earlier than its active time and after
the duties it depends on, and remembers what it has signed. This project models that pipeline and proves what it
promises, for every input, every interleaving and every reachable state.

| file | what it models |
|---|---|
| `Types`, `Duties` | values shared by all modules; duties are objects, shared by reference |
| `HeapOrder`, `DelayHeap` | the indexed delay heap: a binary heap of nodes that know their position, and a map from id to node. The sift procedures of Go's `container/heap` are written out over the repository's `Less`, `Swap`, `Push` and `Pop` |
| `QueueSpec`, `DutyQueue` | the duty queue: as a value, and as a class with one method for each section that holds the lock, proved equal to its function of the value |
| `QueueRuns`, `QueueSafety`, `QueueOrder` | runs, that is, arbitrary interleavings of the sections with the passing of time; what holds after every run that enqueues no id twice |
| `QueueDrain`, `QueueProgress`, `QueueExact` | how the queue empties: in three steps for each duty; exactly which reachable states of it can be emptied, and exactly which batches |
| `Scheduler`, `Plans`, `Selection` | the expansion of an epoch's evaluation into a plan, what plans contain, and the same in numbers: who is selected, which slots an epoch has, when the expansion fails |
| `PlanDraining` | what cleaning leaves of a plan, and when the queue can drain it |
| `Protocol`, `Server` | epochs and workers around the queue and the store, as traces of events and as a class whose state is always what its trace reaches |
| `EndToEnd` | traces in which every plan comes from the scheduler, and exactly when all that they began can be completed |
| `Keys`, `Tables`, `Rows`, `Store` | composite byte keys, tables with indexes, what storing a list of records leaves in the rows, and the seeks that answer queries |
| `Slashing`, `SlashingExact`, `State` | the slashing checks against a scan of all records, the runs they guard, exactly which runs they accept, and the state class |
| `Bitlist` | lists of bits packed into bytes |

Conventions and assumptions:

- Calls that leave the modelled code are parameters. An environment gives generated ids, signatures, the digest of
  a signature and the iteration order of a Go map; a handled duty may get any result of its kind; a commit to the
  database may fail. Where fresh ids matter, `UniqueIds` or `FreshIds` says so.
- The clock never goes back. A timer does not fire before the deadline it was last armed with, and re-arming it
  discards an old tick; timers of the Go version that the module declares can leave a stale tick behind.
- Instants are nanoseconds since Go's zero time, in unbounded integers. Wrap-around of slot numbers, of
  `slot * SecondsPerSlot` and of durations is modelled as the code has it; `PlanDraining.TimesInRange` says when
  there is none.
- A division by zero in the scheduler, which panics in Go, is the error `DivideByZero` of the model.
- A key of a non-unique index ends with the key of the primary index, which is the id and a zero byte.

What the code does that a reader may not expect, and what is proved about it:

- `duty_queue.go:93-95` empties the list of dependents when the dependency already has one, so a second duty that
  names a dependency evicts the first, which then never runs (`QueueProgress.SharedNeverDrains`, `QueueProgress.SharedExample`). The plans of the
  scheduler share no dependency (`PlanDraining.PlanIsDrainable`). A duty enqueued after its dependency was
  acknowledged never runs either (`QueueProgress.LateNeverReleased`, `QueueProgress.LateExample`).
- The counter of blocked duties rises by the number of dependencies and falls by one (`QueueSafety.Counters`).
- An epoch whose plan is made while an attestation is due and its aggregate is not leaves the aggregate in the
  queue for good, whatever epochs follow (`EndToEnd.CaughtStaysBlocked`, `EndToEnd.CaughtExample`). With plans made
  by the scheduler after Go's zero time, nothing else keeps the queue from being emptied
  (`EndToEnd.EpochsCompleteExactlyWhenNoneCaught`).
- The lower-bound seek of the slashing checks does not look at whose record it found. A validator without a record
  can be refused because of a record of another one, and is never accepted wrongly
  (`Slashing.BlockCheckAgreesExactly`, `Slashing.AttestCheckAgreesExactly`, `Slashing.RefusedForAnother`).
- The attestation check compares with the lowest source and target only. Between the attestations of a validator it
  rules out a conflict with the first one, and no other (`Slashing.CheckedExactlyAboveFirst`,
  `Slashing.LaterMayDoubleVote`, `Slashing.LaterMaySurround`).
- `GetValidatorsActiveAt` seeks from the next epoch down; at the last epoch this bound wraps around to zero and the
  answer is empty (`States.State.GetValidatorsActiveAt`).

## Model

| member | source | states |
|---|---|---|
| HeapOrder.EarlierIsStrictWeakOrder | internal/delayheap/delayheap.go:42-54 | the order of the heap is a strict weak order in which the zero time comes last, other times are ordered as numbers, and only equal times are incomparable |
| HeapOrder.SiftDownStep | internal/delayheap/delayheap.go:125-145 | one swap with the earlier child moves the only disturbed position down, and when there is none to swap with the order is restored, or only the parent is left to compare with |
| HeapOrder.SiftUpStep | internal/delayheap/delayheap.go:85-95 | one swap with the parent moves the only disturbed position up |
| HeapOrder.RootIsEarliest | internal/delayheap/delayheap.go:107-113 | in an ordered heap no time is earlier than the one at the root |
| DelayHeaps.DelayHeap.Less | internal/delayheap/delayheap.go:42-54 | the comparison of two positions is the order on their times |
| DelayHeaps.DelayHeap.Swap | internal/delayheap/delayheap.go:56-60 | exchanges two nodes and keeps every node's index equal to its position |
| DelayHeaps.DelayHeap.Append | internal/delayheap/delayheap.go:62-67 | adds a node at the end, with its index |
| DelayHeaps.DelayHeap.RemoveLast | internal/delayheap/delayheap.go:69-76 | removes the last node and sets its index to -1; the others keep their positions |
| DelayHeaps.DelayHeap.SiftUp | internal/delayheap/delayheap.go:93 | restores the order when only one position may be too early, moving nothing behind the given bound |
| DelayHeaps.DelayHeap.SiftDown | internal/delayheap/delayheap.go:102 | restores the order below a disturbed position, or moves nothing and says so |
| DelayHeaps.DelayHeap.HeapPush | internal/delayheap/delayheap.go:93 | adds a node to an ordered heap, which stays ordered, every index right |
| DelayHeaps.DelayHeap.HeapPop | internal/delayheap/delayheap.go:102 | removes the root of an ordered heap, which stays ordered, every index right |
| DelayHeaps.DelayHeap.HeapFix | internal/delayheap/delayheap.go:130 | restores the order after the time at one position was replaced |
| DelayHeaps.DelayHeap.HeapRemove | internal/delayheap/delayheap.go:139 | removes the node at any position of an ordered heap, which stays ordered, every index right |
| DelayHeaps.DelayHeap.constructor | internal/delayheap/delayheap.go:78-83 | a new heap is empty and satisfies the heap invariant |
| DelayHeaps.DelayHeap.Push | internal/delayheap/delayheap.go:85-95 | stores exactly the new entry and keeps the heap invariant; fails exactly when the id is stored already, and then changes nothing |
| DelayHeaps.DelayHeap.Pop | internal/delayheap/delayheap.go:97-105 | removes exactly an entry that is due no later than any other; returns nothing, and changes nothing, exactly when the heap is empty |
| DelayHeaps.DelayHeap.Peek | internal/delayheap/delayheap.go:107-113 | finds an entry due no later than any other, exactly when the heap is not empty |
| DelayHeaps.DelayHeap.ContainsID | internal/delayheap/delayheap.go:115-118 | true exactly when some node in the heap has the id |
| DelayHeaps.DelayHeap.Contains | internal/delayheap/delayheap.go:120-123 | true exactly when some node in the heap has the id of the object |
| DelayHeaps.DelayHeap.Update | internal/delayheap/delayheap.go:125-135 | replaces exactly the entry with the id and keeps the heap invariant; fails exactly when there is none, and then changes nothing |
| DelayHeaps.DelayHeap.Remove | internal/delayheap/delayheap.go:137-145 | removes exactly the entry with the id and keeps the heap invariant; fails exactly when there is none, and then changes nothing |
| DelayHeaps.DelayHeap.Length | internal/delayheap/delayheap.go:147-149 | the length of the heap is the number of stored ids |
| DelayHeaps.Drain | internal/delayheap/delayheap.go:97-105 | calling Pop on a heap until it returns nothing empties it, and yields every stored id exactly once and none after one that is due later |
| DelayHeaps.DrainingSorts | internal/delayheap/delayheap.go:97-105 | ids that come out by always taking an earliest entry, as those of Drain do, are sorted by due time, and no id comes out twice |
| DelayHeaps.DrainingIsPermutation | internal/delayheap/delayheap.go:97-105 | ids that come out by always taking an earliest entry, as those of Drain do, are all the stored ids, each once |
| QueueSpec.AddDependentHas | internal/server/duty_queue.go:92-97 | after a duty is registered, it is the only dependent of each of its dependencies, and every other list is as before |
| DutyQueues.DutyQueue.constructor | internal/server/duty_queue.go:45-59 | a new queue is the empty one |
| DutyQueues.DutyQueue.Enqueue | internal/server/duty_queue.go:73-112 | the whole new state of the queue after a batch, for any batch: repeated ids, empty ids, shared or missing dependencies |
| DutyQueues.DutyQueue.EnqueueOne | internal/server/duty_queue.go:80-105 | the whole new state after one duty of a batch |
| DutyQueues.DutyQueue.Block | internal/server/duty_queue.go:83-90 | the duty becomes blocked on exactly the ids it names |
| DutyQueues.DutyQueue.AddDependent | internal/server/duty_queue.go:92-97 | the loop over the dependencies leaves each with this duty as its only dependent |
| DutyQueues.DutyQueue.Schedule | internal/server/duty_queue.go:101 | pushes a duty with its active time; a duty whose id is in the heap already changes nothing, and the error is ignored |
| DutyQueues.DutyQueue.Dequeue | internal/server/duty_queue.go:114-144 | one attempt: nothing to take, exactly when nothing is ready; the missing-context error, with the state it leaves behind; or the first ready duty with the context stored for it, which becomes unacknowledged |
| DutyQueues.DutyQueue.Ack | internal/server/duty_queue.go:146-187 | the whole new state and the result, for all four ways to return |
| DutyQueues.DutyQueue.ReleaseAll | internal/server/duty_queue.go:159-185 | tells the dependents in order, and stops at the first inconsistent one |
| DutyQueues.DutyQueue.ReleaseOne | internal/server/duty_queue.go:170-183 | crosses out the dependency and, when it was the last, moves the duty to the heap |
| DutyQueues.DutyQueue.EnqueueLocked | internal/server/duty_queue.go:189-197 | appends to the ready duties and counts |
| DutyQueues.DutyQueue.NextDelayedEval | internal/server/duty_queue.go:200-214 | finds a duty due no later than any other waiting one, exactly when one waits |
| DutyQueues.DutyQueue.Fire | internal/server/duty_queue.go:238-244 | moves the duty the timer was armed for from the heap to the ready duties |
| QueueRuns.AckSucceeds | internal/server/duty_queue.go:158-185 | in a reachable state, acknowledging an unacknowledged duty takes neither inner error return, and tells one dependent or none |
| QueueRuns.StepKeepsQueueInv | internal/server/duty_queue.go:73-250 | every step keeps the invariant of the queue, given the history of the run |
| QueueRuns.StepStaysOnTime | internal/server/duty_queue.go:200-249 | every step keeps the duty the timer is armed for in the heap, and nothing is ready early |
| QueueRuns.Reachable | internal/server/duty_queue.go:73-250 | the invariant of the queue holds after every run that enqueues no id twice, even with shared, missing or circular dependencies |
| QueueSafety.Conservation | internal/server/duty_queue.go:73-187 | an id that was enqueued and not acknowledged is in exactly one of the four places, any other in none; the contexts are exactly the former; nothing is ready twice |
| QueueSafety.DependencySafety | internal/server/duty_queue.go:80-107 | a duty in the heap, ready or unacknowledged has every dependency acknowledged at a step after its own enqueuing; a blocked duty waits for something |
| QueueSafety.NoErrorReturns | internal/server/duty_queue.go:114-249 | no missing context, no inconsistent dependent, and the removal whose error the timer case ignores succeeds, under any interleaving |
| QueueSafety.NeverEarly | internal/server/duty_queue.go:216-249 | nothing is ready or handed out before its active time |
| QueueSafety.Counters | internal/server/duty_queue.go:98-175 | three counters are the sizes they name; the counter of blocked duties exceeds the number of blocked duties by all dependencies but one of every duty ever enqueued with any |
| QueueSafety.EnqueuedMeans | internal/server/duty_queue.go:73-112 | the recorded history has exactly the ids that some step of the run enqueued |
| QueueSafety.AcknowledgedMeans | internal/server/duty_queue.go:146-157 | the recorded history has exactly the ids that some step of the run acknowledged |
| QueueOrder.FirstInFirstOut | internal/server/duty_queue.go:114-197 | in every run, the duties handed out, followed by those still ready, are exactly the duties that became ready, in order |
| QueueOrder.ContextIsItsOwn | internal/server/duty_queue.go:105-133 | in every run, a duty that is outstanding has the context it was enqueued with |
| QueueOrder.HandsOutItsOwn | internal/server/duty_queue.go:123-133 | in every run that leaves a ready duty, the next attempt hands out the first one with the context of the step that enqueued it |
| QueueDrain.StepTakesWork | internal/server/duty_queue.go:114-250 | firing, dequeuing and acknowledging each take one from the work left, enqueuing adds three for each duty, and nothing else changes it |
| QueueDrain.WorkAddsUp | internal/server/duty_queue.go:73-250 | in every run, the work done and the work left add up to three for each duty enqueued |
| QueueDrain.DrainInvReachable | internal/server/duty_queue.go:80-107 | in runs of drainable batches, whatever a blocked duty waits for is outstanding and would release it |
| QueueProgress.ClearableCanMove | internal/server/duty_queue.go:146-250 | in a reachable state that is clearable, while a duty is blocked some duty is in the heap, ready or unacknowledged |
| QueueProgress.StepStaysClearable | internal/server/duty_queue.go:114-250 | firing, dequeuing, acknowledging, arming and waiting keep a clearable queue clearable |
| QueueProgress.CanClear | internal/server/duty_queue.go:114-250 | from every clearable state there are steps, without further enqueuing, that empty the queue |
| QueueProgress.DrainableIsClearable | internal/server/duty_queue.go:73-112 | runs of drainable batches leave the queue clearable |
| QueueProgress.NoDeadlock | internal/server/duty_queue.go:146-250 | in runs of drainable batches, while a duty is blocked some duty is in the heap, ready or unacknowledged |
| QueueProgress.CanDrain | internal/server/duty_queue.go:73-250 | every run of drainable batches can go on, without further enqueuing, until the queue is empty |
| QueueProgress.MaximalRunsDrain | internal/server/duty_queue.go:73-250 | every maximal run of drainable batches took exactly three steps for each duty and left all five structures empty |
| QueueProgress.DoomedForever | internal/server/duty_queue.go:92-97 | a duty whose registration with a dependency was lost stays blocked, whatever happens later |
| QueueProgress.LateNeverReleased | internal/server/duty_queue.go:158-160 | a duty enqueued after its dependency was acknowledged stays blocked, whatever happens later |
| QueueProgress.SharedNeverDrains | internal/server/duty_queue.go:93-95 | a batch in which two duties name the same dependency never drains |
| QueueProgress.SharedExample | internal/server/duty_queue.go:93-95 | three duties, two of which name the third: closed, acyclic and timed, and never emptied |
| QueueProgress.AloneIsRun | internal/server/duty_queue.go:73-250 | the six steps that bring one duty to its end are a run |
| QueueProgress.LateExample | internal/server/duty_queue.go:158-160 | after that run, a duty that names the finished one stays blocked, whatever happens later |
| QueueExact.NeverUntimed | internal/server/duty_queue.go:221-222 | a duty with a zero active time is never ready, handed out or acknowledged |
| QueueExact.AckedOnce | internal/server/duty_queue.go:150-154 | an id is acknowledged at one step at most |
| QueueExact.DependencyAckedEarlier | internal/server/duty_queue.go:146-187 | when a duty and one of its dependencies are both acknowledged, the dependency was first |
| QueueExact.DrainsExactlyWhenDrainable | internal/server/duty_queue.go:73-250 | a batch with distinct ids can be drained if and only if its dependencies are in the batch, acyclic and unshared and no active time is zero |
| QueueExact.ClearsExactlyWhenClearable | internal/server/duty_queue.go:73-250 | after any run, whatever the batches were, the queue can be emptied without further enqueuing if and only if all that blocked duties wait for is outstanding and registered to release them, the waits are acyclic, and no outstanding time is zero |
| Schedulers.Scheduler.Process | internal/scheduler/scheduler.go:97-242 | returns the cleaned expansion as fresh pending duties with the fork of the epoch, or the first error, and then keeps the old duties |
| Schedulers.Scheduler.ProcessProposals | internal/scheduler/scheduler.go:113-126 | the loop over the proposals computes their part of the expansion |
| Schedulers.Scheduler.ProcessAttestations | internal/scheduler/scheduler.go:128-167 | the loop over the attestations computes their part of the expansion, or its first error |
| Schedulers.Scheduler.ProcessAttestation | internal/scheduler/scheduler.go:129-166 | one attestation, and an aggregate that depends on it exactly when the validator is selected; Selections.AttestersSelected says in numbers when it is |
| Schedulers.Scheduler.ProcessCommittees | internal/scheduler/scheduler.go:169-219 | the loop over the committee entries computes their part of the expansion, or its first error |
| Schedulers.Scheduler.ProcessSlots | internal/scheduler/scheduler.go:173-218 | the loop over the slots of the epoch, including bounds that wrap around; Selections.SyncsInNumbers says in numbers which slots these are |
| Schedulers.Scheduler.ProcessSync | internal/scheduler/scheduler.go:174-217 | one slot of one entry, in any iteration order of the set of subcommittees |
| Schedulers.Scheduler.MarkPending | internal/scheduler/scheduler.go:233-236 | sets the fork and the state of every duty of the plan |
| Schedulers.Scheduler.CleanDuties | internal/scheduler/scheduler.go:290-300 | keeps the duties that are still to come |
| Plans.ExpansionFits | internal/scheduler/scheduler.go:103-219 | each duty of an expansion has its own generated id and the time of its kind; only an aggregate has a dependency: the attestation right before it, of the same slot and validator |
| Plans.ExpansionReadsBack | internal/scheduler/scheduler.go:113-219 | the proposals and attestations asked for can be read back from the duties, in order; there is one aggregate for each selected attestation, one sync duty for each entry and slot, and one aggregate for each selected subcommittee of each entry and slot, and nothing else |
| Plans.SelectedIsGroup | internal/scheduler/scheduler.go:189-217 | in any iteration order, a subcommittee has an aggregate exactly when it is selected, and none has two |
| Selections.AttestersSelected | internal/scheduler/scheduler.go:128-167 | in an expansion, each attestation that was asked for is followed by an aggregate if and only if the digest of the validator's signature of the slot is a multiple of the committee's modulus, and its proof is that signature; there are no other attestations |
| Selections.SelectionMeans | internal/scheduler/scheduler.go:244-259 | the modulus is the number m >= 1 with m * target <= size < (m + 1) * target, and 1 for a committee smaller than the target |
| Selections.AttestationFailsExactly | internal/scheduler/scheduler.go:145-148 | an attestation fails if and only if the target is zero or the slot cannot be signed |
| Selections.KindsInOrder | internal/scheduler/scheduler.go:113-219 | proposals come first, then attestations with their aggregates, then sync duties |
| Selections.SlotRange | internal/scheduler/scheduler.go:169-170 | without overflow, the loop runs from epoch * slotsPerEpoch up to, and without, (epoch + 1) * slotsPerEpoch |
| Selections.SyncsInNumbers | internal/scheduler/scheduler.go:169-182 | the sync duties of an expansion are, entry by entry, one for each slot of the epoch, in order |
| Selections.SyncSelectionMeans | internal/scheduler/scheduler.go:266-288 | a sync aggregator is selected if and only if the digest of its signature is a multiple of a 64th of the committee size, rounded down and at least 1 |
| Selections.SubcommitteesInNumbers | internal/scheduler/scheduler.go:189-194 | the subcommittees of an entry are exactly the quarters of the sync committee that one of its indices falls into |
| Selections.SyncAggregatesInNumbers | internal/scheduler/scheduler.go:189-217 | the sync aggregates of an expansion are exactly those of a slot of the epoch, an entry, a subcommittee of the entry and a signature that selects the validator |
| Selections.ExpansionFailsExactly | internal/scheduler/scheduler.go:128-201 | an expansion fails if and only if an attestation does, or at a slot of the epoch an entry has an index that is not a number, a sync committee too small to divide, or a subcommittee that cannot be signed |
| Selections.ParsingReadsBack | internal/scheduler/scheduler.go:302-312 | a number written in decimal is read back exactly when it fits 32 bits, leading zeros change nothing, and no text that is empty or has another character is read |
| Selections.ForksInOrder | internal/scheduler/scheduler.go:224-232 | each fork lasts from its epoch until a later one begins |
| Selections.WrappingIsCongruent | internal/scheduler/scheduler.go:93-95 | a wrapped number is in range and congruent to the exact one, unsigned and signed |
| Selections.DivisionTruncates | internal/scheduler/scheduler.go:106-111 | a delay is the quotient rounded toward zero, for either sign |
| PlanDraining.CleanKeeps | internal/scheduler/scheduler.go:290-300 | cleaning keeps exactly the duties with a later active time, in order |
| PlanDraining.DanglesExactlyBetween | internal/scheduler/scheduler.go:103-166 | an aggregate is left without its attestation if and only if the plan is made from the time of the attestation on and before that of the aggregate |
| PlanDraining.PlanHasDistinctIds | internal/scheduler/scheduler.go:113-219 | no id is in a plan twice |
| PlanDraining.PlanIsDrainable | internal/scheduler/scheduler.go:97-242 | a plan is drainable if and only if no aggregate is caught between the two times |
| PlanDraining.EpochDrainsExactlyWhenNotCaught | internal/server/server.go:254-262 | an empty queue that is given one plan, and nothing after it, can finish it if and only if no aggregate is caught between the two times; EndToEnd.EpochsCompleteExactlyWhenNoneCaught is the statement for the running system |
| PlanDraining.TimesInRange | internal/scheduler/scheduler.go:93-111 | without overflow, a slot starts its number of slot durations after genesis, and the two delays are a third and two thirds of a slot, rounded down |
| PlanDraining.PlanIsIssued | internal/scheduler/scheduler.go:149-165 | plans keep the promise that every aggregate depends on one attestation of its slot and validator |
| Protocol.TraceIsRun | internal/server/server.go:142-173 | the steps of epochs and workers take the queue through one of its runs |
| Protocol.SystemReachable | internal/server/server.go:142-267 | in every state of the system there is one worker for each unacknowledged duty, and the store has only enqueued duties, the acknowledged ones with their results |
| Protocol.AcknowledgedIsStored | internal/server/server.go:162-170 | an acknowledged duty is in the store with a result of its kind, whatever is stored later |
| Protocol.AggregateFindsAttestation | internal/scheduler/duties.go:174-179 | while a worker has an aggregate, the store has the attestation it depends on, with its result set |
| Protocol.EverythingIsStored | internal/server/server.go:142-173 | when the queue is empty again, every duty ever enqueued is in the store with its result |
| Protocol.UpsertIsStored | internal/server/state/state.go:117-124 | storing a plan leaves the last duty of each id in the store, and every other id as before |
| Protocol.PlanIsStored | internal/server/server.go:262-265 | in every trace, a successful upsert puts every duty of the pending plan into the store, under its id |
| Protocol.PlanStaysStored | internal/server/server.go:262-265 | and there each stays, the same object, whatever epochs and workers do later |
| Protocol.StoreKeeps | internal/server/server.go:166-168 | what is in the store at one moment of a trace is in it, unchanged, at every later one |
| Protocol.PendingPlans | internal/server/server.go:262-265 | every plan that was enqueued either waits for its upsert or has had it, and never both |
| Protocol.ResultsStay | internal/server/server.go:162-170 | the result that a worker set is the result of its duty at every later moment of the trace |
| EndToEnd.ScheduledIsOrderly | internal/server/server.go:247-267 | epochs whose plans come from the scheduler never enqueue an id twice |
| EndToEnd.AggregatesFindAttestations | internal/scheduler/duties.go:174-179 | with plans from the scheduler and in any interleaving of epochs and workers, an aggregate finds its attestation, of the same slot and validator, with its result set |
| EndToEnd.EpochsCanComplete | internal/server/server.go:142-267 | from every state that scheduled plans without a caught aggregate lead to, there are steps after which every duty is in the store with a result of its kind, no worker is left and the queue is empty |
| EndToEnd.SettlesExactlyWhenClearable | internal/server/server.go:142-173 | whatever was enqueued, epochs and workers can empty the queue without a further epoch if and only if the queue is clearable |
| EndToEnd.CaughtStaysBlocked | internal/scheduler/scheduler.go:290-300 | in every trace of scheduled plans, a caught aggregate that was enqueued is still blocked, whatever epochs and workers do |
| EndToEnd.EpochsCompleteExactlyWhenNoneCaught | internal/server/server.go:142-267 | in every state that scheduled plans lead to, the epochs begun so far can be completed if and only if no aggregate of theirs was caught |
| EndToEnd.LateIsCaught | internal/scheduler/scheduler.go:103-166 | an evaluation with one selected attester, planned five seconds into slot 0, catches its aggregate |
| EndToEnd.CaughtExample | internal/server/server.go:254-262 | the aggregate of that plan stays blocked, whatever follows |
| Servers.Server.EnqueuePlan | internal/server/server.go:262 | the first step of an epoch |
| Servers.Server.UpsertPlan | internal/server/server.go:263-265 | the second step of an epoch, which stores every duty of the plan and leaves every other one as before, or stores nothing; it fails exactly on an empty id or a failing commit |
| Servers.Server.TakeDuty | internal/server/server.go:144-147 | a worker takes the first ready duty with the context of the epoch that enqueued it, and never the error that would panic |
| Servers.HandedOutAsEnqueued | internal/server/server.go:144 | in every trace that leaves a ready duty, some epoch enqueued it, and it is handed out with the context of that epoch |
| Servers.Server.FinishDuty | internal/server/server.go:163-164 | sets the result and the state of the shared duty |
| Servers.Server.StoreDuty | internal/server/server.go:166-168 | stores the finished duty; it fails, and ends the trace, exactly on an empty id or a failing commit |
| Servers.Server.PassTime | internal/server/duty_queue.go:224 | the clock goes on between the steps |
| Servers.Server.AckDuty | internal/server/server.go:170 | acknowledges the stored duty; the result that the worker ignores is never an error |
| Servers.Server.ArmTimer | internal/server/duty_queue.go:220-232 | arms the timer exactly when a duty with a non-zero time waits, and for one that is due no later than any other |
| Servers.Server.FireTimer | internal/server/duty_queue.go:238-244 | the timer case, as a step of the system |
| Servers.Server.AttestationRoot | internal/scheduler/duties.go:171-179 | the lookups at the start of an aggregate all succeed and read the root that the attestation signed |
| Keys.U64Order | internal/server/state/index.go:188-192 | big-endian bytes are ordered as the numbers, and determine them |
| Keys.BlockKeyOrder | internal/server/state/index.go:77-81 | keys of the block index are ordered as triples of validator, slot and id, for all ids, and determine them |
| Keys.CheckpointKeyOrder | internal/server/state/index.go:134-147 | keys of the attestation index are ordered as validator, source before target, epoch and id, and determine them |
| Keys.SeekNumber | internal/server/state/index.go:104-117 | a seek for a number finds exactly the keys from this number on, and its prefix exactly those of this number |
| Keys.SeekCheckpoint | internal/server/state/index.go:154-175 | a seek for a validator and a kind finds exactly the keys from this validator and kind on |
| Keys.SeekBlock | internal/server/state/index.go:84-102 | a prefix of a validator and a slot selects exactly the records of this validator at this slot |
| Keys.BytesWriter.Write | internal/server/state/index.go:181-186 | appends the bytes |
| Keys.BytesWriter.Uint64 | internal/server/state/index.go:188-192 | appends the eight bytes of the number |
| Keys.BytesWriter.String | internal/server/state/index.go:194-196 | appends the string and a zero byte |
| Keys.BlockKeyBytes | internal/server/state/index.go:77-81 | the writer builds the key of a validator and a slot |
| Keys.CheckpointKeyBytes | internal/server/state/index.go:134-141 | the writer builds the key of a validator, a kind and an epoch |
| Tables.ReindexKeeps | internal/server/state/state.go:118 | inserting a record drops the keys of the one it replaces, so the index again has exactly the keys of the stored records |
| Tables.SeekFirst | internal/server/state/state.go:281-301 | returns the record of the least selected key, exactly when a key is selected |
| Tables.SeekAll | internal/server/state/state.go:224-227 | returns the records of exactly the selected keys, in the order of the iterator |
| Stores.SchemasSeparate | internal/server/state/schema.go:28-80 | no two records with different ids have an index key in common |
| Stores.InsertDutiesKeeps | internal/server/state/state.go:117-124 | storing duties keeps the indexes of the table in agreement with its rows, also when ids are replaced |
| Stores.InsertValidatorsKeeps | internal/server/state/state.go:172-179 | the same for validators |
| Stores.InsertDutiesStores | internal/server/state/state.go:117-124 | after storing duties, with or without a result, the row of each id is the last of them with this id, and every other row is as before |
| Stores.InsertValidatorsStores | internal/server/state/state.go:172-179 | the same for validators and their public keys |
| Rows.RowsAreDetermined | internal/server/state/state.go:117-124 | these two conditions determine the rows |
| Rows.DistinctAreStored | internal/server/state/state.go:117-124 | of records with different ids, each is stored |
| Stores.TablesAreDetermined | internal/server/state/state.go:65-104 | the rows determine the indexes |
| Slashing.BlockCheckRefinesScan | internal/server/state/state.go:274-326 | an accepted block satisfies condition 2 of EIP-3076 over the validator's own records, and repeats the root of the first record at its slot; for a validator with a record the check accepts exactly these |
| Slashing.BlockCheckWithoutRecord | internal/server/state/state.go:291-303 | for a validator without a record the check accepts exactly the slots above that of the earliest proposal of the validators after it |
| Slashing.BlockCheckAgreesExactly | internal/server/state/state.go:274-326 | the check decides as the scan does if and only if the validator has a record, or the record of the later validator that is read instead does not refuse |
| Slashing.AttestCheckRefinesScan | internal/server/state/state.go:344-382 | an accepted attestation satisfies conditions 4 and 5 of EIP-3076 over the validator's own records; for a validator with a record the check accepts exactly these |
| Slashing.AttestCheckWithoutRecord | internal/server/state/state.go:348-360 | for a validator without a record both seeks land on the same attestation of a later validator, and the check compares with its source and its target |
| Slashing.AttestCheckAgreesExactly | internal/server/state/state.go:344-382 | the check decides as conditions 4 and 5 do if and only if the validator has a record, or the record of the later validator that is read instead does not refuse |
| Slashing.RefusedForAnother | internal/server/state/state.go:294-303 | with one stored proposal, of validator 2 at slot 10, validator 1 is refused slot 5 |
| Slashing.ProposalsNeverDisagree | internal/server/state/state.go:278-318 | in every run that stores proposals only after the check accepted them, two stored proposals of a validator at one slot have the same root |
| Slashing.FirstBoundsLater | internal/server/state/state.go:344-382 | in every checked run, each later attestation of a validator has a source no lower and a target higher than its first one |
| Slashing.LowestStayFirst | internal/server/state/state.go:348-360 | in every checked run, the lowest stored source and target of a validator are those of its first attestation |
| Slashing.NoneSlashableWithFirst | internal/server/state/state.go:344-382 | in every checked run, no later attestation is a double vote with the first one, surrounds it or is surrounded by it |
| Slashing.CheckedExactlyAboveFirst | internal/server/state/state.go:344-382 | of the attestations of one validator, the check accepts a run if and only if each later one is above the first |
| Slashing.LaterAreNotCompared | internal/server/state/state.go:344-382 | any two attestations above the first are accepted, one after the other |
| Slashing.LaterMayDoubleVote | internal/server/state/state.go:344-382 | three votes that the check accepts, of which the last two are a double vote |
| Slashing.LaterMaySurround | internal/server/state/state.go:344-382 | three votes that the check accepts, of which one surrounds another, in either order |
| SlashingExact.BlockCheckIsFullScan | internal/server/state/state.go:274-326 | in every checked run, for a validator with a record, the check accepts exactly the slots above its lowest one with the root of all its records at that slot |
| SlashingExact.FirstSlotIsLowest | internal/server/state/state.go:291-323 | in every checked run, the first proposal of a validator has its lowest slot |
| SlashingExact.CheckedExactly | internal/server/state/state.go:274-382 | the checks accept a run of any records of any validators if and only if each record is above the first of its validator and repeats the roots at its slot or, as the first of its validator, is above the record of the next validator |
| SlashingExact.CheckedProposalsExactly | internal/server/state/state.go:274-326 | the proposals of one validator are accepted if and only if each later slot is above the first and equal slots have equal roots |
| States.State.constructor | internal/server/state/state.go:55-62 | opening a database rebuilds the only tables that agree with it |
| States.State.ReIndex | internal/server/state/state.go:65-104 | rebuilds both tables from the database |
| States.State.UpsertDuties | internal/server/state/state.go:110-132 | stores the last of the given duties of each id and leaves every other row as before, in the tables and the database, or stores nothing; fails exactly on an empty id or a failing commit |
| States.State.UpsertValidators | internal/server/state/state.go:165-188 | the same for validators and their public keys |
| States.State.GetValidatorsActiveAt | internal/server/state/state.go:208-229 | returns exactly the validators with metadata and an activation epoch no later than the given one, each once, for every epoch but the last, where it returns none |
| States.State.GetValidatorByIndex | internal/server/state/state.go:231-243 | returns a validator with this index, exactly when one is stored |
| States.State.ProposalAtSlot | internal/server/state/state.go:278-289 | the record of the least key of the validator at the slot |
| States.State.LowestSignedProposal | internal/server/state/state.go:291-303 | the record of the least key from the validator on |
| States.State.SlashBlockCheck | internal/server/state/state.go:274-326 | accepts exactly what the check on the index accepts |
| States.State.SlashAttestCheck | internal/server/state/state.go:344-382 | accepts exactly what the check on the index accepts |
| BitLists.NewBitlist | internal/bitlist/bitlist.go:11-18 | the serialization of a list of the given length with all bits clear |
| BitLists.Len | internal/bitlist/bitlist.go:21-30 | the position of the last set bit of the last byte, among all bits; zero for bytes without one |
| BitLists.SetBitAt | internal/bitlist/bitlist.go:33-44 | for all bytes, changes exactly the addressed bit of the list, keeps the end and the length, and does nothing out of range |
| BitLists.BitAt | internal/bitlist/bitlist.go:47-54 | for all bytes, reads the addressed bit of the list, and false out of range |
| BitLists.SerializedExactly | internal/bitlist/bitlist.go:11-54 | bytes are the SSZ serialization of a list if and only if their last byte is not zero and they stand for that list |
| BitLists.SerializationIsUnique | internal/bitlist/bitlist.go:11-18 | a list has one serialization |
| BitLists.WrittenPutsAll | internal/bitlist/bitlist.go:33-44 | any sequence of writes to the bytes is the same sequence of updates of the list, and keeps the end where it is |
| BitLists.LastWriteWins | internal/bitlist/bitlist.go:33-44 | after any sequence of writes, each bit is the last one written to it, or the one it was |
| BitLists.WritingSerializes | internal/bitlist/bitlist.go:11-44 | a new list with every bit written is the SSZ serialization of the bits |

## Left out

- Wake-ups of the queue: the channels, and that a wake-up can be lost. What is proved is safety and that a next step
  is enabled, not that it is taken promptly. Shutting down is not modelled.
- Stale ticks of Go timers, and clocks that go back: see the assumptions above.
- Handling a duty: beacon API, BLS signatures, SHA-256, hash tree roots and domains are foreign code. A handler that
  fails panics in the repository; the model has only handlers that return a result of the kind of their job.
- HandleEpoch (`internal/scheduler/scheduler.go:45-91`) and the validator lifecycle: queries to the beacon node.
  `Process` is proved for every evaluation, so nothing is assumed of the answers.
- Records of the index model are values, while the server model shares duties by reference. In the repository the
  in-memory table also keeps pointers, so a result set before the upsert is in the stored object before it is in
  the indexes.
- Internals of the database and of the in-memory tables: a table is a map from byte keys to records, a commit is
  all or nothing. The indexes "type" and "pending" and the getters on them are not modelled: no duty and no
  check depends on them.
- Item 3 of the conditions of EIP-3076: the code does not check it, and no claim is made that the attestations of
  a validator are pairwise safe.
- Slashing.FirstBoundsLater: requires that no completed attestation is overwritten, because an upsert under a used
  id replaces the record; ids are generated fresh. SlashingExact.CheckedExactly requires the same of proposals.
- Overflow of the queue's counters and of the lengths of Go slices.
- `Copy` and `Equal` of the bitlist, the interchange format, the subscription services, statistics and metrics,
  the command line, gRPC and telemetry: they report on the modelled parts or connect them with the outside.
