/** Duties, and the values they carry. */
module Duties {
  import opened Types

  datatype Job =
    | BlockProposal
    | Attestation(committeeIndex: uint64, committeeLength: uint64, committeesAtSlot: uint64)
    | AttestationAggregate(selectionProof: seq<byte>)
    | SyncCommittee
    | SyncCommitteeAggregate(selectionProof: seq<byte>, subCommitteeIndex: nat)

  datatype Checkpoint = Checkpoint(root: seq<byte>, epoch: uint64)

  datatype DutyResult =
    | BlockProposalResult(root: seq<byte>, signature: seq<byte>)
    | AttestationResult(root: seq<byte>, source: Checkpoint, target: Checkpoint)
    | AttestationAggregateResult
    | SyncCommitteeResult
    | SyncCommitteeAggregateResult

  datatype DutyState = UNKNOWN | PENDING | COMPLETE

  datatype Fork = Phase0 | Altair | Bellatrix

  // What is fixed when a duty is created.
  datatype DutySpec = DutySpec(
    id: Id, slot: uint64, epoch: uint64, activeTime: Time, job: Job, validatorIndex: uint64, blockedBy: seq<Id>)

  // The kind of result that handling a job yields.
  predicate ResultFits(job: Job, result: DutyResult) {
    match job
    case BlockProposal => result.BlockProposalResult?
    case Attestation(_, _, _) => result.AttestationResult?
    case AttestationAggregate(_) => result.AttestationAggregateResult?
    case SyncCommittee => result.SyncCommitteeResult?
    case SyncCommitteeAggregate(_, _) => result.SyncCommitteeAggregateResult?
  }

  // A duty is shared by reference between the plan, the queue, the workers and the store.
  class Duty {
    const spec: DutySpec
    var fork: Fork
    var state: DutyState
    var result: Option<DutyResult>

    constructor (spec: DutySpec)
      ensures this.spec == spec && fork == Phase0 && state == UNKNOWN && result == None
    {
      this.spec, fork, state, result := spec, Phase0, UNKNOWN, None;
    }
  }
}
