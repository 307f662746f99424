/**
 The slashing checks: what they decide from the ends of the indexes, and how that compares with a scan of
 all stored records, as the conditions of EIP-3076 are written.
 */
module Slashing {
  import opened Types
  import opened Duties
  import opened Keys
  import opened Tables
  import opened Stores

  // The keys with a given prefix, and the keys from a bound on.

  function WithPrefix(prefix: Key): Key -> bool {
    k => prefix <= k
  }

  function From(bound: Key): Key -> bool {
    k => !Below(k, bound)
  }

  // The block check, as the code decides it.
  ghost predicate BlockCheck(index: map<Key, Record>, v: uint64, slot: uint64, root: seq<byte>) {
    && (forall k | IsFirst(index, WithPrefix(BlockKey(v, slot)), k) && IsProposal(index[k]) ::
          index[k].result.value.root == root)
    && (forall k | IsFirst(index, From(U64(v)), k) :: index[k].spec.slot < slot)
  }

  // The attestation check, as the code decides it.
  ghost predicate AttestCheck(index: map<Key, Record>, v: uint64, source: uint64, target: uint64) {
    && (forall k | IsFirst(index, From(U64(v) + Kind(false)), k) && IsAttestation(index[k]) ::
          source >= EpochOf(index[k], false))
    && (forall k | IsFirst(index, From(U64(v) + Kind(true)), k) && IsAttestation(index[k]) ::
          target > EpochOf(index[k], true))
  }

  // Stored records of a validator.

  ghost predicate ProposedBy(t: DutyTable, v: uint64, id: Id) {
    id in t.rows && IsProposal(t.rows[id]) && t.rows[id].spec.validatorIndex == v
  }

  ghost predicate AttestedBy(t: DutyTable, v: uint64, id: Id) {
    id in t.rows && IsAttestation(t.rows[id]) && t.rows[id].spec.validatorIndex == v
  }

  // The root equals that of the record with the least id among the validator's proposals at the slot.
  ghost predicate RootAgreesWithFirst(t: DutyTable, v: uint64, slot: uint64, root: seq<byte>) {
    forall id |
      && ProposedBy(t, v, id) && t.rows[id].spec.slot == slot
      && (forall other | ProposedBy(t, v, other) && t.rows[other].spec.slot == slot && other != id :: Below(id, other))
      :: t.rows[id].result.value.root == root
  }

  // Condition 2 of EIP-3076: refuse a slot that is not above the validator's lowest one.
  ghost predicate AboveLowestSlot(t: DutyTable, v: uint64, slot: uint64) {
    (exists id :: ProposedBy(t, v, id)) ==> exists id :: ProposedBy(t, v, id) && t.rows[id].spec.slot < slot
  }

  // Condition 4 of EIP-3076: refuse a source epoch below the validator's lowest one.
  ghost predicate NotBelowLowestSource(t: DutyTable, v: uint64, source: uint64) {
    (exists id :: AttestedBy(t, v, id)) ==> exists id :: AttestedBy(t, v, id) && EpochOf(t.rows[id], false) <= source
  }

  // Condition 5 of EIP-3076: refuse a target epoch that is not above the validator's lowest one.
  ghost predicate AboveLowestTarget(t: DutyTable, v: uint64, target: uint64) {
    (exists id :: AttestedBy(t, v, id)) ==> exists id :: AttestedBy(t, v, id) && EpochOf(t.rows[id], true) < target
  }

  // Keys of the block index and rows.

  lemma BlockKeyOfRow(t: DutyTable, v: uint64, id: Id)
    requires DutiesConsistent(t) && ProposedBy(t, v, id)
    ensures BlockIndexKey(t.rows[id]) in t.blocks && t.blocks[BlockIndexKey(t.rows[id])] == t.rows[id]
    ensures t.rows[id].spec.id == id
  {
    assert BlockIndexKey(t.rows[id]) in BLOCKS.keysOf(t.rows[id]);
  }

  lemma RowOfBlockKey(t: DutyTable, k: Key)
    requires DutiesConsistent(t) && k in t.blocks
    ensures var r := t.blocks[k];
      r.spec.id in t.rows && t.rows[r.spec.id] == r && IsProposal(r) && k == BlockIndexKey(r)
  {
    assert k in BLOCKS.keysOf(t.blocks[k]);
  }

  // The first key for a validator and a slot is that of the least id.
  lemma FirstAtSlot(t: DutyTable, v: uint64, slot: uint64, k: Key)
    requires DutiesConsistent(t) && IsFirst(t.blocks, WithPrefix(BlockKey(v, slot)), k)
    ensures var id := t.blocks[k].spec.id;
      && ProposedBy(t, v, id) && t.rows[id] == t.blocks[k] && t.rows[id].spec.slot == slot
      && forall other | ProposedBy(t, v, other) && t.rows[other].spec.slot == slot && other != id :: Below(id, other)
  {
    RowOfBlockKey(t, k);
    var r := t.blocks[k];
    SeekBlock(r.spec.validatorIndex, r.spec.slot, r.spec.id, v, slot);
    forall other | ProposedBy(t, v, other) && t.rows[other].spec.slot == slot && other != r.spec.id
      ensures Below(r.spec.id, other)
    {
      BlockKeyOfRow(t, v, other);
      SeekBlock(v, slot, other, v, slot);
      BlockKeyOrder(v, slot, r.spec.id, v, slot, other);
    }
  }

  // The first key from a validator on is its own, and of its lowest slot, if it has any.
  lemma FirstFromValidator(t: DutyTable, v: uint64, k: Key)
    requires DutiesConsistent(t) && IsFirst(t.blocks, From(U64(v)), k)
    ensures IsProposal(t.blocks[k]) && t.blocks[k].spec.validatorIndex >= v
    ensures forall id | ProposedBy(t, v, id) ::
      && ProposedBy(t, v, t.blocks[k].spec.id) && t.rows[t.blocks[k].spec.id] == t.blocks[k]
      && t.blocks[k].spec.slot <= t.rows[id].spec.slot
  {
    RowOfBlockKey(t, k);
    var r := t.blocks[k];
    SplitBlockKey(r);
    SeekNumber(r.spec.validatorIndex, v, U64(r.spec.slot) + Terminated(r.spec.id));
    forall id | ProposedBy(t, v, id) ensures r.spec.validatorIndex == v && r.spec.slot <= t.rows[id].spec.slot {
      BlockKeyOfRow(t, v, id);
      SplitBlockKey(t.rows[id]);
      SeekNumber(v, v, U64(t.rows[id].spec.slot) + Terminated(id));
      BlockKeyOrder(r.spec.validatorIndex, r.spec.slot, r.spec.id, v, t.rows[id].spec.slot, id);
    }
  }

  lemma SplitBlockKey(r: Record)
    ensures BlockIndexKey(r) == U64(r.spec.validatorIndex) + (U64(r.spec.slot) + Terminated(r.spec.id))
  {
  }

  lemma FirstExistsIn(index: map<Key, Record>, select: Key -> bool, some: Key) returns (k: Key)
    requires some in index && select(some)
    ensures IsFirst(index, select, k)
  {
    var keys := set k | k in index && select(k);
    assert some in keys;
    k := FirstExists(keys);
    assert forall other | other in index && select(other) :: other in keys;
  }

  lemma RootCheckIsScan(t: DutyTable, v: uint64, slot: uint64, root: seq<byte>)
    requires DutiesConsistent(t)
    ensures (forall k | IsFirst(t.blocks, WithPrefix(BlockKey(v, slot)), k) && IsProposal(t.blocks[k]) ::
               t.blocks[k].result.value.root == root)
      <==> RootAgreesWithFirst(t, v, slot, root)
  {
    forall k | IsFirst(t.blocks, WithPrefix(BlockKey(v, slot)), k)
      ensures RootAgreesWithFirst(t, v, slot, root) ==> t.blocks[k].result.value.root == root
    {
      FirstAtSlot(t, v, slot, k);
    }
    if id :| ProposedBy(t, v, id) && t.rows[id].spec.slot == slot {
      BlockKeyOfRow(t, v, id);
      SeekBlock(v, slot, id, v, slot);
      var k := FirstExistsIn(t.blocks, WithPrefix(BlockKey(v, slot)), BlockIndexKey(t.rows[id]));
      FirstAtSlot(t, v, slot, k);
      forall other | ProposedBy(t, v, other) && t.rows[other].spec.slot == slot && other != t.blocks[k].spec.id
        ensures !Below(other, t.blocks[k].spec.id)
      {
        BelowIsTotal(other, t.blocks[k].spec.id);
      }
    }
  }

  // The block check never accepts what a scan would refuse, and decides as the scan does for a validator
  // that has a record. For any other validator it reads the record of the next one, and may refuse.
  lemma BlockCheckRefinesScan(t: DutyTable, v: uint64, slot: uint64, root: seq<byte>)
    requires DutiesConsistent(t)
    ensures BlockCheck(t.blocks, v, slot, root) ==> AboveLowestSlot(t, v, slot) && RootAgreesWithFirst(t, v, slot, root)
    ensures (exists id :: ProposedBy(t, v, id)) ==>
      (BlockCheck(t.blocks, v, slot, root) <==> AboveLowestSlot(t, v, slot) && RootAgreesWithFirst(t, v, slot, root))
  {
    RootCheckIsScan(t, v, slot, root);
    if id :| ProposedBy(t, v, id) {
      BlockKeyOfRow(t, v, id);
      SplitBlockKey(t.rows[id]);
      SeekNumber(v, v, U64(t.rows[id].spec.slot) + Terminated(id));
      var k := FirstExistsIn(t.blocks, From(U64(v)), BlockIndexKey(t.rows[id]));
      FirstFromValidator(t, v, k);
      forall other | IsFirst(t.blocks, From(U64(v)), other) ensures other == k {
        FirstIsUnique(t.blocks, From(U64(v)), other, k);
      }
    }
  }

  // The earliest proposal of the validators after v.
  ghost predicate NextProposal(t: DutyTable, v: uint64, id: Id) {
    && id in t.rows && IsProposal(t.rows[id]) && t.rows[id].spec.validatorIndex > v
    && forall other |
        other in t.rows && other != id && IsProposal(t.rows[other]) && t.rows[other].spec.validatorIndex > v ::
        Below(BlockIndexKey(t.rows[id]), BlockIndexKey(t.rows[other]))
  }

  // For a validator without a record, the block check accepts exactly the slots above that of the earliest
  // proposal of the validators after it.
  lemma BlockCheckWithoutRecord(t: DutyTable, v: uint64, slot: uint64, root: seq<byte>)
    requires DutiesConsistent(t) && !exists id :: ProposedBy(t, v, id)
    ensures BlockCheck(t.blocks, v, slot, root) <==>
      forall id | NextProposal(t, v, id) :: t.rows[id].spec.slot < slot
  {
    RootCheckIsScan(t, v, slot, root);
    forall k | IsFirst(t.blocks, From(U64(v)), k)
      ensures NextProposal(t, v, t.blocks[k].spec.id) && t.rows[t.blocks[k].spec.id] == t.blocks[k]
    {
      FirstIsNext(t, v, k);
    }
    forall id | NextProposal(t, v, id)
      ensures IsFirst(t.blocks, From(U64(v)), BlockIndexKey(t.rows[id])) &&
        t.blocks[BlockIndexKey(t.rows[id])] == t.rows[id]
    {
      NextIsFirst(t, v, id);
    }
  }

  lemma FirstIsNext(t: DutyTable, v: uint64, k: Key)
    requires DutiesConsistent(t) && (!exists id :: ProposedBy(t, v, id)) && IsFirst(t.blocks, From(U64(v)), k)
    ensures NextProposal(t, v, t.blocks[k].spec.id) && t.rows[t.blocks[k].spec.id] == t.blocks[k]
  {
    RowOfBlockKey(t, k);
    var r := t.blocks[k];
    FirstFromValidator(t, v, k);
    assert !ProposedBy(t, v, r.spec.id);
    forall other |
      other in t.rows && other != r.spec.id && IsProposal(t.rows[other]) && t.rows[other].spec.validatorIndex > v
      ensures Below(k, BlockIndexKey(t.rows[other]))
    {
      var o := t.rows[other];
      BlockKeyOfRow(t, o.spec.validatorIndex, other);
      SplitBlockKey(o);
      SeekNumber(o.spec.validatorIndex, v, U64(o.spec.slot) + Terminated(other));
      BlockKeyOrder(o.spec.validatorIndex, o.spec.slot, other, r.spec.validatorIndex, r.spec.slot, r.spec.id);
    }
  }

  lemma NextIsFirst(t: DutyTable, v: uint64, id: Id)
    requires DutiesConsistent(t) && (!exists id :: ProposedBy(t, v, id)) && NextProposal(t, v, id)
    ensures IsFirst(t.blocks, From(U64(v)), BlockIndexKey(t.rows[id]))
    ensures t.blocks[BlockIndexKey(t.rows[id])] == t.rows[id]
  {
    var r := t.rows[id];
    BlockKeyOfRow(t, r.spec.validatorIndex, id);
    SplitBlockKey(r);
    SeekNumber(r.spec.validatorIndex, v, U64(r.spec.slot) + Terminated(id));
    forall k | k in t.blocks && From(U64(v))(k) && k != BlockIndexKey(r) ensures Below(BlockIndexKey(r), k) {
      RowOfBlockKey(t, k);
      var o := t.blocks[k];
      SplitBlockKey(o);
      SeekNumber(o.spec.validatorIndex, v, U64(o.spec.slot) + Terminated(o.spec.id));
      assert !ProposedBy(t, v, o.spec.id);
    }
  }

  // The same for attestations.

  lemma AttestKeyOfRow(t: DutyTable, v: uint64, id: Id, target: bool)
    requires DutiesConsistent(t) && AttestedBy(t, v, id)
    ensures AttestIndexKey(t.rows[id], target) in t.attestations
    ensures t.attestations[AttestIndexKey(t.rows[id], target)] == t.rows[id]
    ensures t.rows[id].spec.id == id
  {
    assert AttestIndexKey(t.rows[id], target) in ATTESTATIONS.keysOf(t.rows[id]);
  }

  lemma RowOfAttestKey(t: DutyTable, k: Key) returns (target: bool)
    requires DutiesConsistent(t) && k in t.attestations
    ensures var r := t.attestations[k];
      r.spec.id in t.rows && t.rows[r.spec.id] == r && IsAttestation(r) && k == AttestIndexKey(r, target)
  {
    assert k in ATTESTATIONS.keysOf(t.attestations[k]);
    target := k == AttestIndexKey(t.attestations[k], true);
  }

  // The first key from a validator and a kind on is its own, and of its lowest epoch, if it has any.
  lemma FirstFromCheckpoint(t: DutyTable, v: uint64, target: bool, k: Key, id: Id)
    requires DutiesConsistent(t) && AttestedBy(t, v, id)
    requires IsFirst(t.attestations, From(U64(v) + Kind(target)), k)
    ensures AttestedBy(t, v, t.attestations[k].spec.id) && t.rows[t.attestations[k].spec.id] == t.attestations[k]
    ensures EpochOf(t.attestations[k], target) <= EpochOf(t.rows[id], target)
  {
    var kind := RowOfAttestKey(t, k);
    var r := t.attestations[k];
    SeekCheckpoint(r.spec.validatorIndex, kind, EpochOf(r, kind), r.spec.id, v, target);
    AttestKeyOfRow(t, v, id, target);
    SeekCheckpoint(v, target, EpochOf(t.rows[id], target), id, v, target);
    CheckpointKeyOrder(r.spec.validatorIndex, kind, EpochOf(r, kind), r.spec.id,
                       v, target, EpochOf(t.rows[id], target), id);
  }

  lemma FirstCheckpointExists(t: DutyTable, v: uint64, target: bool, id: Id) returns (k: Key)
    requires DutiesConsistent(t) && AttestedBy(t, v, id)
    ensures IsFirst(t.attestations, From(U64(v) + Kind(target)), k)
    ensures forall other | IsFirst(t.attestations, From(U64(v) + Kind(target)), other) :: other == k
  {
    AttestKeyOfRow(t, v, id, target);
    SeekCheckpoint(v, target, EpochOf(t.rows[id], target), id, v, target);
    k := FirstExistsIn(t.attestations, From(U64(v) + Kind(target)), AttestIndexKey(t.rows[id], target));
    forall other | IsFirst(t.attestations, From(U64(v) + Kind(target)), other) ensures other == k {
      FirstIsUnique(t.attestations, From(U64(v) + Kind(target)), other, k);
    }
  }

  // The attestation check never accepts what conditions 4 and 5 would refuse, and decides as they do for
  // a validator that has a record.
  lemma AttestCheckRefinesScan(t: DutyTable, v: uint64, source: uint64, target: uint64)
    requires DutiesConsistent(t)
    ensures AttestCheck(t.attestations, v, source, target) ==>
      NotBelowLowestSource(t, v, source) && AboveLowestTarget(t, v, target)
    ensures (exists id :: AttestedBy(t, v, id)) ==>
      (AttestCheck(t.attestations, v, source, target) <==>
         NotBelowLowestSource(t, v, source) && AboveLowestTarget(t, v, target))
  {
    hide DutiesConsistent, IsFirst, From;
    if id :| AttestedBy(t, v, id) {
      var k := FirstCheckpointExists(t, v, false, id);
      var l := FirstCheckpointExists(t, v, true, id);
      FirstFromCheckpoint(t, v, false, k, id);
      FirstFromCheckpoint(t, v, true, l, id);
      forall other | AttestedBy(t, v, other)
        ensures EpochOf(t.attestations[k], false) <= EpochOf(t.rows[other], false)
        ensures EpochOf(t.attestations[l], true) <= EpochOf(t.rows[other], true)
      {
        FirstFromCheckpoint(t, v, false, k, other);
        FirstFromCheckpoint(t, v, true, l, other);
      }
    }
  }

  // The attestation of the validators after v whose keys come first.
  ghost predicate NextAttestation(t: DutyTable, v: uint64, id: Id) {
    && id in t.rows && IsAttestation(t.rows[id]) && t.rows[id].spec.validatorIndex > v
    && forall other |
        other in t.rows && other != id && IsAttestation(t.rows[other]) && t.rows[other].spec.validatorIndex > v ::
        Below(AttestIndexKey(t.rows[id], false), AttestIndexKey(t.rows[other], false))
  }

  // For a validator without a record, both seeks of the attestation check land on the same record of a
  // later validator, one looking at its source and the other at its target.
  lemma AttestCheckWithoutRecord(t: DutyTable, v: uint64, source: uint64, target: uint64)
    requires DutiesConsistent(t) && !exists id :: AttestedBy(t, v, id)
    ensures AttestCheck(t.attestations, v, source, target) <==>
      forall id | NextAttestation(t, v, id) ::
        EpochOf(t.rows[id], false) <= source && EpochOf(t.rows[id], true) < target
  {
    forall kind, k | IsFirst(t.attestations, From(U64(v) + Kind(kind)), k)
      ensures NextAttestation(t, v, t.attestations[k].spec.id) && t.rows[t.attestations[k].spec.id] == t.attestations[k]
    {
      FirstIsNextAttestation(t, v, kind, k);
    }
    forall kind, id | NextAttestation(t, v, id)
      ensures IsFirst(t.attestations, From(U64(v) + Kind(kind)), AttestIndexKey(t.rows[id], false))
      ensures t.attestations[AttestIndexKey(t.rows[id], false)] == t.rows[id]
    {
      NextAttestationIsFirst(t, v, kind, id);
    }
  }

  lemma FirstIsNextAttestation(t: DutyTable, v: uint64, target: bool, k: Key)
    requires DutiesConsistent(t) && !exists id :: AttestedBy(t, v, id)
    requires IsFirst(t.attestations, From(U64(v) + Kind(target)), k)
    ensures NextAttestation(t, v, t.attestations[k].spec.id) && t.rows[t.attestations[k].spec.id] == t.attestations[k]
  {
    var kind := RowOfAttestKey(t, k);
    var r := t.attestations[k];
    SeekCheckpoint(r.spec.validatorIndex, kind, EpochOf(r, kind), r.spec.id, v, target);
    assert !AttestedBy(t, v, r.spec.id);
    FirstIsSource(t, v, target, k, kind);
    forall other |
      other in t.rows && other != r.spec.id && IsAttestation(t.rows[other]) && t.rows[other].spec.validatorIndex > v
      ensures Below(k, AttestIndexKey(t.rows[other], false))
    {
      var o := t.rows[other];
      AttestKeyOfRow(t, o.spec.validatorIndex, other, false);
      SeekCheckpoint(o.spec.validatorIndex, false, EpochOf(o, false), other, v, target);
      CheckpointKeyOrder(o.spec.validatorIndex, false, EpochOf(o, false), other,
                         r.spec.validatorIndex, kind, EpochOf(r, kind), r.spec.id);
    }
  }

  // A record of a later validator is found by its source.
  lemma FirstIsSource(t: DutyTable, v: uint64, target: bool, k: Key, kind: bool)
    requires DutiesConsistent(t) && IsFirst(t.attestations, From(U64(v) + Kind(target)), k)
    requires var r := t.attestations[k];
      IsAttestation(r) && r.spec.validatorIndex > v && r.spec.id in t.rows && t.rows[r.spec.id] == r &&
        k == AttestIndexKey(r, kind)
    ensures !kind
  {
    var r := t.attestations[k];
    AttestKeyOfRow(t, r.spec.validatorIndex, r.spec.id, false);
    SeekCheckpoint(r.spec.validatorIndex, false, EpochOf(r, false), r.spec.id, v, target);
    CheckpointKeyOrder(r.spec.validatorIndex, kind, EpochOf(r, kind), r.spec.id,
                       r.spec.validatorIndex, false, EpochOf(r, false), r.spec.id);
  }

  lemma NextAttestationIsFirst(t: DutyTable, v: uint64, target: bool, id: Id)
    requires DutiesConsistent(t) && (!exists id :: AttestedBy(t, v, id)) && NextAttestation(t, v, id)
    ensures IsFirst(t.attestations, From(U64(v) + Kind(target)), AttestIndexKey(t.rows[id], false))
    ensures t.attestations[AttestIndexKey(t.rows[id], false)] == t.rows[id]
  {
    var r := t.rows[id];
    AttestKeyOfRow(t, r.spec.validatorIndex, id, false);
    SeekCheckpoint(r.spec.validatorIndex, false, EpochOf(r, false), id, v, target);
    forall k | k in t.attestations && From(U64(v) + Kind(target))(k) && k != AttestIndexKey(r, false)
      ensures Below(AttestIndexKey(r, false), k)
    {
      var kind := RowOfAttestKey(t, k);
      var o := t.attestations[k];
      SeekCheckpoint(o.spec.validatorIndex, kind, EpochOf(o, kind), o.spec.id, v, target);
      assert !AttestedBy(t, v, o.spec.id);
      CheckpointKeyOrder(o.spec.validatorIndex, false, EpochOf(o, false), o.spec.id,
                         o.spec.validatorIndex, kind, EpochOf(o, kind), o.spec.id);
      if kind && o.spec.id != id {
        BelowIsTransitive(AttestIndexKey(r, false), AttestIndexKey(o, false), k);
      }
    }
  }

  // The checks decide as the conditions say exactly when the validator has a record of its own, or the
  // record of the later validator that they read instead does not refuse either.

  lemma BlockCheckAgreesExactly(t: DutyTable, v: uint64, slot: uint64, root: seq<byte>)
    requires DutiesConsistent(t)
    ensures (BlockCheck(t.blocks, v, slot, root) <==>
               AboveLowestSlot(t, v, slot) && RootAgreesWithFirst(t, v, slot, root)) <==>
      (exists id :: ProposedBy(t, v, id)) || forall id | NextProposal(t, v, id) :: t.rows[id].spec.slot < slot
  {
    BlockCheckRefinesScan(t, v, slot, root);
    if !exists id :: ProposedBy(t, v, id) {
      BlockCheckWithoutRecord(t, v, slot, root);
    }
  }

  lemma AttestCheckAgreesExactly(t: DutyTable, v: uint64, source: uint64, target: uint64)
    requires DutiesConsistent(t)
    ensures (AttestCheck(t.attestations, v, source, target) <==>
               NotBelowLowestSource(t, v, source) && AboveLowestTarget(t, v, target)) <==>
      (exists id :: AttestedBy(t, v, id)) || forall id | NextAttestation(t, v, id) ::
        EpochOf(t.rows[id], false) <= source && EpochOf(t.rows[id], true) < target
  {
    AttestCheckRefinesScan(t, v, source, target);
    if !exists id :: AttestedBy(t, v, id) {
      AttestCheckWithoutRecord(t, v, source, target);
    }
  }

  // With one proposal stored, of validator 2 at slot 10, validator 1 is refused slot 5.
  lemma RefusedForAnother(r: Record)
    requires IsProposal(r) && r.spec.validatorIndex == 2 && r.spec.slot == 10
    ensures var t := InsertDuties(NO_DUTIES, [r]);
      DutiesConsistent(t) && (!exists id :: ProposedBy(t, 1, id)) && forall root :: !BlockCheck(t.blocks, 1, 5, root)
  {
    var t := InsertDuties(NO_DUTIES, [r]);
    InsertDutiesKeeps(NO_DUTIES, [r]);
    assert [r][..0] == [] && InsertDuties(NO_DUTIES, []) == NO_DUTIES;
    assert t == InsertDuty(NO_DUTIES, r);
    assert NextProposal(t, 1, r.spec.id);
    forall root ensures !BlockCheck(t.blocks, 1, 5, root) {
      BlockCheckWithoutRecord(t, 1, 5, root);
    }
  }

  // Runs that store a completed duty only after its check accepted it.

  ghost predicate Checked(t: DutyTable, r: Record) {
    && (IsProposal(r) ==> BlockCheck(t.blocks, r.spec.validatorIndex, r.spec.slot, r.result.value.root))
    && (IsAttestation(r) ==> AttestCheck(t.attestations, r.spec.validatorIndex, EpochOf(r, false), EpochOf(r, true)))
  }

  ghost predicate CheckedRun(rs: seq<Record>) {
    rs == [] || (CheckedRun(rs[..|rs| - 1]) && Checked(InsertDuties(NO_DUTIES, rs[..|rs| - 1]), rs[|rs| - 1]))
  }

  lemma RunIsConsistent(rs: seq<Record>)
    ensures DutiesConsistent(InsertDuties(NO_DUTIES, rs))
  {
    InsertDutiesKeeps(NO_DUTIES, rs);
  }

  // No two stored proposals of a validator at one slot have different roots, although only the first
  // record at the slot is compared.
  lemma {:induction false} ProposalsNeverDisagree(rs: seq<Record>, v: uint64, a: Id, b: Id)
    requires CheckedRun(rs)
    requires var t := InsertDuties(NO_DUTIES, rs);
      ProposedBy(t, v, a) && ProposedBy(t, v, b) && t.rows[a].spec.slot == t.rows[b].spec.slot
    ensures var t := InsertDuties(NO_DUTIES, rs);
      t.rows[a].result.value.root == t.rows[b].result.value.root
    decreases |rs|, 0
  {
    if rs != [] {
      var n := |rs| - 1;
      var before, t := InsertDuties(NO_DUTIES, rs[..n]), InsertDuties(NO_DUTIES, rs);
      RunIsConsistent(rs[..n]);
      if a != rs[n].spec.id && b != rs[n].spec.id {
        ProposalsNeverDisagree(rs[..n], v, a, b);
      } else if a != b {
        var earlier := if a == rs[n].spec.id then b else a;
        NewProposalAgrees(rs[..n], rs[n], earlier);
      }
    }
  }

  // What the block check compares the root with.
  lemma CheckedAgainst(t: DutyTable, v: uint64, slot: uint64, root: seq<byte>, some: Id) returns (id: Id)
    requires DutiesConsistent(t) && BlockCheck(t.blocks, v, slot, root)
    requires ProposedBy(t, v, some) && t.rows[some].spec.slot == slot
    ensures ProposedBy(t, v, id) && t.rows[id].spec.slot == slot && t.rows[id].result.value.root == root
  {
    BlockKeyOfRow(t, v, some);
    SeekBlock(v, slot, some, v, slot);
    var k := FirstExistsIn(t.blocks, WithPrefix(BlockKey(v, slot)), BlockIndexKey(t.rows[some]));
    FirstAtSlot(t, v, slot, k);
    id := t.blocks[k].spec.id;
  }

  lemma {:induction false} NewProposalAgrees(rs: seq<Record>, r: Record, id: Id)
    requires CheckedRun(rs) && Checked(InsertDuties(NO_DUTIES, rs), r) && IsProposal(r)
    requires var t := InsertDuties(NO_DUTIES, rs);
      ProposedBy(t, r.spec.validatorIndex, id) && t.rows[id].spec.slot == r.spec.slot
    ensures InsertDuties(NO_DUTIES, rs).rows[id].result.value.root == r.result.value.root
    decreases |rs|, 1
  {
    RunIsConsistent(rs);
    var first := CheckedAgainst(
      InsertDuties(NO_DUTIES, rs), r.spec.validatorIndex, r.spec.slot, r.result.value.root, id);
    hide BlockCheck, DutiesConsistent, InsertDuties;
    ProposalsNeverDisagree(rs, r.spec.validatorIndex, id, first);
  }

  // No completed attestation is overwritten: ids are fresh.
  ghost predicate KeepsAttestations(rs: seq<Record>) {
    rs == [] || (
      var before, id := InsertDuties(NO_DUTIES, rs[..|rs| - 1]), rs[|rs| - 1].spec.id;
      KeepsAttestations(rs[..|rs| - 1]) && (id in before.rows ==> !IsAttestation(before.rows[id])))
  }

  ghost predicate IsFirstVote(rs: seq<Record>, i: nat, v: uint64) {
    && i < |rs| && IsAttestation(rs[i]) && rs[i].spec.validatorIndex == v
    && forall k | 0 <= k < i && IsAttestation(rs[k]) :: rs[k].spec.validatorIndex != v
  }

  lemma {:induction false} StoredCameFrom(rs: seq<Record>, id: Id) returns (k: nat)
    requires id in InsertDuties(NO_DUTIES, rs).rows
    ensures k < |rs| && rs[k] == InsertDuties(NO_DUTIES, rs).rows[id]
  {
    var n := |rs| - 1;
    if rs[n].spec.id == id {
      k := n;
    } else {
      k := StoredCameFrom(rs[..n], id);
    }
  }

  lemma {:induction false} AttestationStays(rs: seq<Record>, i: nat)
    requires KeepsAttestations(rs) && i < |rs| && IsAttestation(rs[i])
    ensures var t := InsertDuties(NO_DUTIES, rs); rs[i].spec.id in t.rows && t.rows[rs[i].spec.id] == rs[i]
  {
    if i < |rs| - 1 {
      AttestationStays(rs[..|rs| - 1], i);
    }
  }

  lemma {:induction false} PrefixIsChecked(rs: seq<Record>, n: nat)
    requires CheckedRun(rs) && KeepsAttestations(rs) && n < |rs|
    ensures CheckedRun(rs[..n]) && KeepsAttestations(rs[..n]) && Checked(InsertDuties(NO_DUTIES, rs[..n]), rs[n])
  {
    if n < |rs| - 1 {
      PrefixIsChecked(rs[..|rs| - 1], n);
      assert rs[..|rs| - 1][..n] == rs[..n];
    }
  }

  // Some earlier attestation of the validator has a source no later, and some a lower target.
  lemma EarlierAttestations(rs: seq<Record>, r: Record, i: nat) returns (k: nat, l: nat)
    requires KeepsAttestations(rs) && Checked(InsertDuties(NO_DUTIES, rs), r) && IsAttestation(r)
    requires i < |rs| && IsAttestation(rs[i]) && rs[i].spec.validatorIndex == r.spec.validatorIndex
    ensures k < |rs| && IsAttestation(rs[k]) && rs[k].spec.validatorIndex == r.spec.validatorIndex
    ensures l < |rs| && IsAttestation(rs[l]) && rs[l].spec.validatorIndex == r.spec.validatorIndex
    ensures EpochOf(rs[k], false) <= EpochOf(r, false) && EpochOf(rs[l], true) < EpochOf(r, true)
  {
    var t, v := InsertDuties(NO_DUTIES, rs), r.spec.validatorIndex;
    RunIsConsistent(rs);
    AttestationStays(rs, i);
    assert AttestedBy(t, v, rs[i].spec.id);
    AttestCheckRefinesScan(t, v, EpochOf(r, false), EpochOf(r, true));
    hide AttestCheck, BlockCheck, DutiesConsistent, InsertDuties, KeepsAttestations;
    var a :| AttestedBy(t, v, a) && EpochOf(t.rows[a], false) <= EpochOf(r, false);
    var b :| AttestedBy(t, v, b) && EpochOf(t.rows[b], true) < EpochOf(r, true);
    k := StoredCameFrom(rs, a);
    l := StoredCameFrom(rs, b);
  }

  // The first attestation of a validator bounds all later ones from below.
  lemma {:induction false} FirstBoundsLater(rs: seq<Record>, v: uint64, i: nat, j: nat)
    requires CheckedRun(rs) && KeepsAttestations(rs) && IsFirstVote(rs, i, v)
    requires i < j < |rs| && IsAttestation(rs[j]) && rs[j].spec.validatorIndex == v
    ensures EpochOf(rs[i], false) <= EpochOf(rs[j], false) && EpochOf(rs[i], true) < EpochOf(rs[j], true)
    decreases j
  {
    PrefixIsChecked(rs, j);
    var k, l := EarlierAttestations(rs[..j], rs[j], i);
    assert rs[..j][k] == rs[k] && rs[..j][l] == rs[l];
    hide CheckedRun, KeepsAttestations, Checked;
    if k != i {
      FirstBoundsLater(rs, v, i, k);
    }
    if l != i {
      FirstBoundsLater(rs, v, i, l);
    }
  }

  // Two different votes for one target epoch, and a vote that surrounds another.

  predicate IsDoubleVote(a: Record, b: Record)
    requires IsAttestation(a) && IsAttestation(b)
  {
    a.result != b.result && EpochOf(a, true) == EpochOf(b, true)
  }

  predicate Surrounds(a: Record, b: Record)
    requires IsAttestation(a) && IsAttestation(b)
  {
    EpochOf(a, false) < EpochOf(b, false) && EpochOf(b, true) < EpochOf(a, true)
  }

  // In a checked run, no attestation is slashable together with the first one of its validator.
  lemma NoneSlashableWithFirst(rs: seq<Record>, v: uint64, i: nat, j: nat)
    requires CheckedRun(rs) && KeepsAttestations(rs) && IsFirstVote(rs, i, v)
    requires i < j < |rs| && IsAttestation(rs[j]) && rs[j].spec.validatorIndex == v
    ensures EpochOf(rs[i], true) != EpochOf(rs[j], true) && !IsDoubleVote(rs[i], rs[j])
    ensures !Surrounds(rs[i], rs[j]) && !Surrounds(rs[j], rs[i])
  {
    FirstBoundsLater(rs, v, i, j);
  }

  // The lowest stored source and target of a validator stay those of its first attestation.
  lemma LowestStayFirst(rs: seq<Record>, v: uint64, i: nat, id: Id)
    requires CheckedRun(rs) && KeepsAttestations(rs) && IsFirstVote(rs, i, v)
    requires AttestedBy(InsertDuties(NO_DUTIES, rs), v, id)
    ensures var t := InsertDuties(NO_DUTIES, rs);
      && AttestedBy(t, v, rs[i].spec.id) && t.rows[rs[i].spec.id] == rs[i]
      && EpochOf(rs[i], false) <= EpochOf(t.rows[id], false)
      && EpochOf(rs[i], true) <= EpochOf(t.rows[id], true)
  {
    AttestationStays(rs, i);
    var k := StoredCameFrom(rs, id);
    if k != i {
      FirstBoundsLater(rs, v, i, k);
    }
  }

  ghost predicate AllAttestationsOf(rs: seq<Record>, v: uint64) {
    forall r | r in rs :: IsAttestation(r) && r.spec.validatorIndex == v
  }

  predicate AboveFirst(first: Record, later: Record)
    requires IsAttestation(first) && IsAttestation(later)
  {
    EpochOf(first, false) <= EpochOf(later, false) && EpochOf(first, true) < EpochOf(later, true)
  }

  // Of the attestations of one validator, the check accepts exactly those above the first: it never
  // compares two later ones.
  lemma {:induction false} CheckedExactlyAboveFirst(rs: seq<Record>, v: uint64)
    requires KeepsAttestations(rs) && AllAttestationsOf(rs, v)
    ensures CheckedRun(rs) <==> forall j | 0 < j < |rs| :: AboveFirst(rs[0], rs[j])
  {
    if CheckedRun(rs) {
      forall j | 0 < j < |rs| ensures AboveFirst(rs[0], rs[j]) {
        FirstBoundsLater(rs, v, 0, j);
      }
    } else {
      var n := |rs| - 1;
      assert forall r | r in rs[..n] :: r in rs;
      CheckedExactlyAboveFirst(rs[..n], v);
      if n > 0 && AboveFirst(rs[0], rs[n]) {
        AboveFirstIsChecked(rs[..n], rs[n], v);
      }
    }
  }

  lemma AboveFirstIsChecked(rs: seq<Record>, r: Record, v: uint64)
    requires KeepsAttestations(rs) && rs != [] && IsAttestation(rs[0]) && rs[0].spec.validatorIndex == v
    requires IsAttestation(r) && r.spec.validatorIndex == v && AboveFirst(rs[0], r)
    ensures Checked(InsertDuties(NO_DUTIES, rs), r)
  {
    var t := InsertDuties(NO_DUTIES, rs);
    RunIsConsistent(rs);
    AttestationStays(rs, 0);
    hide DutiesConsistent, AttestCheck, BlockCheck, InsertDuties;
    assert AttestedBy(t, v, rs[0].spec.id);
    AttestCheckRefinesScan(t, v, EpochOf(r, false), EpochOf(r, true));
  }

  // Any two attestations above the first are accepted, one after the other.
  lemma LaterAreNotCompared(a: Record, b: Record, c: Record)
    requires AllAttestationsOf([a, b, c], a.spec.validatorIndex)
    requires a.spec.id != b.spec.id && a.spec.id != c.spec.id && b.spec.id != c.spec.id
    requires AboveFirst(a, b) && AboveFirst(a, c)
    ensures CheckedRun([a, b, c]) && KeepsAttestations([a, b, c])
  {
    var rs := [a, b, c];
    assert rs[..2] == [a, b] && [a, b][..1] == [a] && [a][..0] == [];
    assert InsertDuties(NO_DUTIES, [a]).rows.Keys == {a.spec.id};
    assert InsertDuties(NO_DUTIES, [a, b]).rows.Keys == {a.spec.id, b.spec.id};
    assert KeepsAttestations([]) && KeepsAttestations([a]) && KeepsAttestations([a, b]);
    CheckedExactlyAboveFirst(rs, a.spec.validatorIndex);
  }

  // A completed attestation of validator 0.
  function Vote(id: byte, source: uint64, target: uint64): Record {
    DutyRecord(
      DutySpec([id], 0, target, 0, Attestation(0, 1, 1), 0, []),
      Some(AttestationResult([id], Checkpoint([], source), Checkpoint([], target))))
  }

  // So the check lets a double vote through.
  lemma LaterMayDoubleVote()
    ensures CheckedRun([Vote(1, 0, 1), Vote(2, 1, 2), Vote(3, 1, 2)])
    ensures IsDoubleVote(Vote(2, 1, 2), Vote(3, 1, 2))
  {
    LaterAreNotCompared(Vote(1, 0, 1), Vote(2, 1, 2), Vote(3, 1, 2));
  }

  // And a vote that surrounds another, in either order.
  lemma LaterMaySurround()
    ensures CheckedRun([Vote(1, 0, 1), Vote(2, 1, 4), Vote(3, 2, 3)])
    ensures CheckedRun([Vote(1, 0, 1), Vote(3, 2, 3), Vote(2, 1, 4)])
    ensures Surrounds(Vote(2, 1, 4), Vote(3, 2, 3))
  {
    LaterAreNotCompared(Vote(1, 0, 1), Vote(2, 1, 4), Vote(3, 2, 3));
    LaterAreNotCompared(Vote(1, 0, 1), Vote(3, 2, 3), Vote(2, 1, 4));
  }
}
