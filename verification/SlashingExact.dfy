/** Exactly which runs of records the slashing checks accept. */
module SlashingExact {
  import opened Types
  import opened Keys
  import opened Stores
  import opened Slashing

  // In checked runs, comparing with the first root at a slot is comparing with all.

  ghost predicate RootAgreesWithAll(t: DutyTable, v: uint64, slot: uint64, root: seq<byte>) {
    forall id | ProposedBy(t, v, id) && t.rows[id].spec.slot == slot :: t.rows[id].result.value.root == root
  }

  lemma FirstRootIsAll(rs: seq<Record>, v: uint64, slot: uint64, root: seq<byte>)
    requires CheckedRun(rs)
    ensures var t := InsertDuties(NO_DUTIES, rs);
      RootAgreesWithFirst(t, v, slot, root) <==> RootAgreesWithAll(t, v, slot, root)
  {
    var t := InsertDuties(NO_DUTIES, rs);
    RunIsConsistent(rs);
    hide InsertDuties, CheckedRun;
    if RootAgreesWithFirst(t, v, slot, root) {
      forall id | ProposedBy(t, v, id) && t.rows[id].spec.slot == slot ensures t.rows[id].result.value.root == root {
        var first := FirstIdAtSlot(t, v, slot, id);
        ProposalsNeverDisagree(rs, v, id, first);
      }
    }
  }

  lemma FirstIdAtSlot(t: DutyTable, v: uint64, slot: uint64, some: Id) returns (id: Id)
    requires DutiesConsistent(t) && ProposedBy(t, v, some) && t.rows[some].spec.slot == slot
    ensures ProposedBy(t, v, id) && t.rows[id].spec.slot == slot
    ensures forall other | ProposedBy(t, v, other) && t.rows[other].spec.slot == slot && other != id :: Below(id, other)
  {
    BlockKeyOfRow(t, v, some);
    SeekBlock(v, slot, some, v, slot);
    var k := FirstExistsIn(t.blocks, WithPrefix(BlockKey(v, slot)), BlockIndexKey(t.rows[some]));
    FirstAtSlot(t, v, slot, k);
    id := t.blocks[k].spec.id;
  }

  // So for a validator with a record, the block check is a scan of all its records.
  lemma BlockCheckIsFullScan(rs: seq<Record>, v: uint64, slot: uint64, root: seq<byte>)
    requires CheckedRun(rs) && exists id :: ProposedBy(InsertDuties(NO_DUTIES, rs), v, id)
    ensures var t := InsertDuties(NO_DUTIES, rs);
      BlockCheck(t.blocks, v, slot, root) <==> AboveLowestSlot(t, v, slot) && RootAgreesWithAll(t, v, slot, root)
  {
    RunIsConsistent(rs);
    hide DutiesConsistent, InsertDuties, CheckedRun, BlockCheck, AboveLowestSlot;
    BlockCheckRefinesScan(InsertDuties(NO_DUTIES, rs), v, slot, root);
    FirstRootIsAll(rs, v, slot, root);
  }

  // Exactly which runs the checks accept.

  // No completed proposal or attestation is overwritten: ids are fresh.
  ghost predicate KeepsRecords(rs: seq<Record>) {
    rs == [] || (
      var before, id := InsertDuties(NO_DUTIES, rs[..|rs| - 1]), rs[|rs| - 1].spec.id;
      && KeepsRecords(rs[..|rs| - 1])
      && (id in before.rows ==> !IsAttestation(before.rows[id]) && !IsProposal(before.rows[id])))
  }

  lemma {:induction false} KeepsAttestationsToo(rs: seq<Record>)
    requires KeepsRecords(rs)
    ensures KeepsAttestations(rs)
  {
    if rs != [] {
      KeepsAttestationsToo(rs[..|rs| - 1]);
    }
  }

  lemma {:induction false} ProposalStays(rs: seq<Record>, i: nat)
    requires KeepsRecords(rs) && i < |rs| && IsProposal(rs[i])
    ensures var t := InsertDuties(NO_DUTIES, rs); rs[i].spec.id in t.rows && t.rows[rs[i].spec.id] == rs[i]
  {
    if i < |rs| - 1 {
      ProposalStays(rs[..|rs| - 1], i);
    }
  }

  function RootOf(r: Record): seq<byte>
    requires IsProposal(r)
  {
    r.result.value.root
  }

  ghost predicate IsProposalOf(r: Record, v: uint64) {
    IsProposal(r) && r.spec.validatorIndex == v
  }

  ghost predicate IsFirstProposal(rs: seq<Record>, i: nat, v: uint64) {
    i < |rs| && IsProposalOf(rs[i], v) && forall k | 0 <= k < i :: !IsProposalOf(rs[k], v)
  }

  // After the given run, a proposal is admitted when its slot is above that of the first proposal of its
  // validator and its root is that of all at its slot; and, if it is the first itself, when its slot is above
  // that of the next validator's earliest proposal.
  ghost predicate AdmitsProposal(rs: seq<Record>, r: Record)
    requires IsProposal(r)
  {
    var v := r.spec.validatorIndex;
    if exists i: nat :: IsFirstProposal(rs, i, v) then
      && (forall i: nat | IsFirstProposal(rs, i, v) :: rs[i].spec.slot < r.spec.slot)
      && (forall i | 0 <= i < |rs| && IsProposalOf(rs[i], v) && rs[i].spec.slot == r.spec.slot ::
            RootOf(rs[i]) == RootOf(r))
    else
      var t := InsertDuties(NO_DUTIES, rs);
      forall id | NextProposal(t, v, id) :: t.rows[id].spec.slot < r.spec.slot
  }

  // An attestation is admitted when it is above the first one of its validator; and, if it is the first
  // itself, when it is above the next validator's attestation whose keys come first.
  ghost predicate AdmitsAttestation(rs: seq<Record>, r: Record)
    requires IsAttestation(r)
  {
    var v := r.spec.validatorIndex;
    if exists i: nat :: IsFirstVote(rs, i, v) then
      forall i: nat | IsFirstVote(rs, i, v) :: AboveFirst(rs[i], r)
    else
      var t := InsertDuties(NO_DUTIES, rs);
      forall id | NextAttestation(t, v, id) :: AboveFirst(t.rows[id], r)
  }

  ghost predicate Admits(rs: seq<Record>, r: Record) {
    (IsProposal(r) ==> AdmitsProposal(rs, r)) && (IsAttestation(r) ==> AdmitsAttestation(rs, r))
  }

  lemma {:induction false} FirstProposalExists(rs: seq<Record>, v: uint64, i: nat) returns (first: nat)
    requires i < |rs| && IsProposalOf(rs[i], v)
    ensures IsFirstProposal(rs, first, v) && first <= i
  {
    if k: nat :| k < i && IsProposalOf(rs[k], v) {
      first := FirstProposalExists(rs, v, k);
    } else {
      first := i;
    }
  }

  lemma {:induction false} FirstVoteExists(rs: seq<Record>, v: uint64, i: nat) returns (first: nat)
    requires i < |rs| && IsAttestation(rs[i]) && rs[i].spec.validatorIndex == v
    ensures IsFirstVote(rs, first, v) && first <= i
  {
    if k: nat :| k < i && IsAttestation(rs[k]) && rs[k].spec.validatorIndex == v {
      first := FirstVoteExists(rs, v, k);
    } else {
      first := i;
    }
  }

  // In a checked run, the first proposal of a validator has its lowest slot.
  lemma {:induction false} FirstSlotIsLowest(rs: seq<Record>, v: uint64, i: nat, j: nat)
    requires CheckedRun(rs) && KeepsRecords(rs) && IsFirstProposal(rs, i, v)
    requires i < j < |rs| && IsProposalOf(rs[j], v)
    ensures rs[i].spec.slot < rs[j].spec.slot
    decreases j
  {
    RecordPrefix(rs, j);
    var k := EarlierProposal(rs[..j], rs[j], i);
    assert rs[..j][k] == rs[k];
    hide CheckedRun, KeepsRecords, Checked;
    if k != i {
      FirstSlotIsLowest(rs, v, i, k);
    }
  }

  lemma {:induction false} RecordPrefix(rs: seq<Record>, n: nat)
    requires CheckedRun(rs) && KeepsRecords(rs) && n < |rs|
    ensures CheckedRun(rs[..n]) && KeepsRecords(rs[..n]) && Checked(InsertDuties(NO_DUTIES, rs[..n]), rs[n])
  {
    if n < |rs| - 1 {
      RecordPrefix(rs[..|rs| - 1], n);
      assert rs[..|rs| - 1][..n] == rs[..n];
    }
  }

  // Some earlier proposal of the validator has a lower slot.
  lemma EarlierProposal(rs: seq<Record>, r: Record, i: nat) returns (k: nat)
    requires KeepsRecords(rs) && Checked(InsertDuties(NO_DUTIES, rs), r) && IsProposal(r)
    requires i < |rs| && IsProposalOf(rs[i], r.spec.validatorIndex)
    ensures k < |rs| && IsProposalOf(rs[k], r.spec.validatorIndex) && rs[k].spec.slot < r.spec.slot
  {
    var t, v := InsertDuties(NO_DUTIES, rs), r.spec.validatorIndex;
    RunIsConsistent(rs);
    ProposalStays(rs, i);
    assert ProposedBy(t, v, rs[i].spec.id);
    BlockCheckRefinesScan(t, v, r.spec.slot, r.result.value.root);
    hide AttestCheck, BlockCheck, DutiesConsistent, InsertDuties, KeepsRecords;
    var id :| ProposedBy(t, v, id) && t.rows[id].spec.slot < r.spec.slot;
    k := StoredCameFrom(rs, id);
  }

  lemma ProposalIsAdmitted(rs: seq<Record>, r: Record)
    requires CheckedRun(rs) && KeepsRecords(rs) && IsProposal(r)
    ensures BlockCheck(
      InsertDuties(NO_DUTIES, rs).blocks, r.spec.validatorIndex, r.spec.slot, r.result.value.root) <==>
      AdmitsProposal(rs, r)
  {
    var t, v := InsertDuties(NO_DUTIES, rs), r.spec.validatorIndex;
    RunIsConsistent(rs);
    hide BlockCheck, DutiesConsistent, InsertDuties, KeepsRecords, CheckedRun;
    if first: nat :| IsFirstProposal(rs, first, v) {
      ProposalStays(rs, first);
      assert ProposedBy(t, v, rs[first].spec.id);
      BlockCheckIsFullScan(rs, v, r.spec.slot, r.result.value.root);
      SlotsOfRun(rs, v, first, r.spec.slot);
      RootsOfRun(rs, v, r.spec.slot, r.result.value.root);
      assert forall i: nat | IsFirstProposal(rs, i, v) :: i == first;
    } else {
      forall id ensures !ProposedBy(t, v, id) {
        if ProposedBy(t, v, id) {
          var k := StoredCameFrom(rs, id);
          var first := FirstProposalExists(rs, v, k);
        }
      }
      BlockCheckWithoutRecord(t, v, r.spec.slot, r.result.value.root);
    }
  }

  lemma SlotsOfRun(rs: seq<Record>, v: uint64, first: nat, slot: uint64)
    requires CheckedRun(rs) && KeepsRecords(rs) && IsFirstProposal(rs, first, v)
    ensures AboveLowestSlot(InsertDuties(NO_DUTIES, rs), v, slot) <==> rs[first].spec.slot < slot
  {
    var t := InsertDuties(NO_DUTIES, rs);
    ProposalStays(rs, first);
    hide InsertDuties, KeepsRecords, CheckedRun;
    assert ProposedBy(t, v, rs[first].spec.id);
    if id :| ProposedBy(t, v, id) && t.rows[id].spec.slot < slot {
      var k := StoredCameFrom(rs, id);
      if k != first {
        FirstSlotIsLowest(rs, v, first, k);
      }
    }
  }

  lemma RootsOfRun(rs: seq<Record>, v: uint64, slot: uint64, root: seq<byte>)
    requires KeepsRecords(rs)
    ensures RootAgreesWithAll(InsertDuties(NO_DUTIES, rs), v, slot, root) <==>
      forall i | 0 <= i < |rs| && IsProposalOf(rs[i], v) && rs[i].spec.slot == slot :: RootOf(rs[i]) == root
  {
    var t := InsertDuties(NO_DUTIES, rs);
    hide InsertDuties;
    forall i | 0 <= i < |rs| && IsProposalOf(rs[i], v)
      ensures rs[i].spec.id in t.rows && t.rows[rs[i].spec.id] == rs[i]
    {
      ProposalStays(rs, i);
    }
    forall id | ProposedBy(t, v, id) ensures exists i :: 0 <= i < |rs| && rs[i] == t.rows[id] {
      var k := StoredCameFrom(rs, id);
    }
  }

  lemma AttestationIsAdmitted(rs: seq<Record>, r: Record)
    requires CheckedRun(rs) && KeepsAttestations(rs) && IsAttestation(r)
    ensures AttestCheck(
      InsertDuties(NO_DUTIES, rs).attestations, r.spec.validatorIndex, EpochOf(r, false), EpochOf(r, true)) <==>
      AdmitsAttestation(rs, r)
  {
    var t, v := InsertDuties(NO_DUTIES, rs), r.spec.validatorIndex;
    RunIsConsistent(rs);
    hide AttestCheck, DutiesConsistent, InsertDuties, KeepsAttestations, CheckedRun;
    if first: nat :| IsFirstVote(rs, first, v) {
      AttestationStays(rs, first);
      assert AttestedBy(t, v, rs[first].spec.id);
      AttestCheckRefinesScan(t, v, EpochOf(r, false), EpochOf(r, true));
      EpochsOfRun(rs, v, first, r);
      assert forall i: nat | IsFirstVote(rs, i, v) :: i == first;
    } else {
      forall id ensures !AttestedBy(t, v, id) {
        if AttestedBy(t, v, id) {
          var k := StoredCameFrom(rs, id);
          var first := FirstVoteExists(rs, v, k);
        }
      }
      AttestCheckWithoutRecord(t, v, EpochOf(r, false), EpochOf(r, true));
    }
  }

  lemma EpochsOfRun(rs: seq<Record>, v: uint64, first: nat, r: Record)
    requires CheckedRun(rs) && KeepsAttestations(rs) && IsFirstVote(rs, first, v) && IsAttestation(r)
    ensures var t := InsertDuties(NO_DUTIES, rs);
      NotBelowLowestSource(t, v, EpochOf(r, false)) && AboveLowestTarget(t, v, EpochOf(r, true)) <==>
        AboveFirst(rs[first], r)
  {
    var t := InsertDuties(NO_DUTIES, rs);
    AttestationStays(rs, first);
    hide InsertDuties, KeepsAttestations, CheckedRun;
    assert AttestedBy(t, v, rs[first].spec.id);
    forall id | AttestedBy(t, v, id)
      ensures EpochOf(rs[first], false) <= EpochOf(t.rows[id], false)
      ensures EpochOf(rs[first], true) <= EpochOf(t.rows[id], true)
    {
      LowestStayFirst(rs, v, first, id);
    }
  }

  ghost predicate AdmittedAt(rs: seq<Record>, j: nat)
    requires j < |rs|
  {
    Admits(rs[..j], rs[j])
  }

  // The checks accept a run of any records, of any validators, exactly when each record is admitted.
  lemma {:induction false} CheckedExactly(rs: seq<Record>)
    requires KeepsRecords(rs)
    ensures CheckedRun(rs) <==> forall j | 0 <= j < |rs| :: AdmittedAt(rs, j)
  {
    if rs != [] {
      var n := |rs| - 1;
      CheckedExactly(rs[..n]);
      if CheckedRun(rs[..n]) {
        LastIsAdmitted(rs[..n], rs[n]);
      }
      hide Checked, KeepsRecords, Admits, InsertDuties;
      AdmittedInPrefix(rs);
    }
  }

  lemma AdmittedInPrefix(rs: seq<Record>)
    requires rs != []
    ensures var n := |rs| - 1;
      (forall j | 0 <= j < |rs| :: AdmittedAt(rs, j)) <==>
      (forall j | 0 <= j < n :: AdmittedAt(rs[..n], j)) && Admits(rs[..n], rs[n])
  {
    var n := |rs| - 1;
    hide Admits;
    forall j | 0 <= j < n ensures AdmittedAt(rs[..n], j) <==> AdmittedAt(rs, j) {
      assert rs[..n][..j] == rs[..j];
    }
    assert AdmittedAt(rs, n) <==> Admits(rs[..n], rs[n]);
  }

  lemma LastIsAdmitted(rs: seq<Record>, r: Record)
    requires CheckedRun(rs) && KeepsRecords(rs)
    ensures Checked(InsertDuties(NO_DUTIES, rs), r) <==> Admits(rs, r)
  {
    hide BlockCheck, AttestCheck, AdmitsProposal, AdmitsAttestation, InsertDuties, CheckedRun;
    KeepsAttestationsToo(rs);
    if IsProposal(r) {
      ProposalIsAdmitted(rs, r);
    }
    if IsAttestation(r) {
      AttestationIsAdmitted(rs, r);
    }
  }

  ghost predicate AllProposalsOf(rs: seq<Record>, v: uint64) {
    forall i | 0 <= i < |rs| :: IsProposalOf(rs[i], v)
  }

  // A proposal's slot is above that of the first, and its root is that of all earlier ones at its slot.
  ghost predicate FitsOwn(rs: seq<Record>, v: uint64, j: nat)
    requires j < |rs| && AllProposalsOf(rs, v)
  {
    && (0 < j ==> rs[0].spec.slot < rs[j].spec.slot)
    && (forall i | 0 <= i < j && rs[i].spec.slot == rs[j].spec.slot :: RootOf(rs[i]) == RootOf(rs[j]))
  }

  // The proposals of one validator are accepted exactly when each later slot is above the first and equal
  // slots have equal roots.
  lemma CheckedProposalsExactly(rs: seq<Record>, v: uint64)
    requires KeepsRecords(rs) && AllProposalsOf(rs, v)
    ensures CheckedRun(rs) <==> forall j | 0 <= j < |rs| :: FitsOwn(rs, v, j)
  {
    CheckedExactly(rs);
    hide CheckedRun, KeepsRecords, FitsOwn, AdmittedAt;
    forall j | 0 <= j < |rs| ensures AdmittedAt(rs, j) <==> FitsOwn(rs, v, j) {
      AdmittedAmongOwn(rs, v, j);
    }
  }

  lemma AdmittedAmongOwn(rs: seq<Record>, v: uint64, j: nat)
    requires j < |rs| && AllProposalsOf(rs, v)
    ensures AdmittedAt(rs, j) <==> FitsOwn(rs, v, j)
  {
    if j == 0 {
      assert rs[..0] == [] && InsertDuties(NO_DUTIES, []) == NO_DUTIES;
    } else {
      hide InsertDuties;
      assert IsFirstProposal(rs[..j], 0, v);
      forall i: nat | IsFirstProposal(rs[..j], i, v) ensures i == 0 {
        assert IsProposalOf(rs[..j][0], v);
      }
      assert forall i | 0 <= i < j :: rs[..j][i] == rs[i];
    }
  }
}
