/**
 What an expansion contains, in numbers: who is selected to aggregate, which slots an epoch has, what the
 decimal indices mean, when an expansion fails, and what 64-bit arithmetic makes of times.
 */
module Selections {
  import opened Types
  import opened Duties
  import opened Schedulers
  import opened Plans

  // The modulus of a committee: its size over the target number of aggregators, rounded down, but at least 1.
  ghost predicate IsModulus(size: nat, target: nat, m: nat) {
    0 < target && 0 < m && if size < target then m == 1 else m * target <= size < (m + 1) * target
  }

  lemma ModulusIsUnique(size: nat, target: nat, a: nat, b: nat)
    requires IsModulus(size, target, a) && IsModulus(size, target, b)
    ensures a == b
  {
    Steps(a, b, target);
    Steps(b, a, target);
  }

  lemma Steps(a: nat, b: nat, width: nat)
    ensures a < b ==> (a + 1) * width <= b * width
  {
  }

  lemma QuotientIsBetween(size: nat, target: nat)
    requires 0 < target
    ensures size / target * target <= size < (size / target + 1) * target
  {
  }

  lemma ModulusExists(size: nat, target: nat) returns (m: nat)
    requires 0 < target
    ensures IsModulus(size, target, m) && m == if size / target == 0 then 1 else size / target
  {
    QuotientIsBetween(size, target);
    m := if size / target == 0 then 1 else size / target;
  }

  // Attesters.

  // The signature's digest is a multiple of the modulus of the committee.
  ghost predicate Selects(env: Env, spec: Spec, a: AttesterDuty, s: Signature) {
    exists m: nat :: IsModulus(a.committeeLength, spec.targetAggregatorsPerCommittee, m) && env.digest(s) % m == 0
  }

  lemma SelectionMeans(env: Env, spec: Spec, epoch: uint64, a: AttesterDuty)
    ensures var r := IsAttestatorAggregate(env, spec, epoch, a.committeeLength, a.slot, a.validatorIndex);
      match env.signSlot(epoch, a.validatorIndex, a.slot) {
        case None => r.Err?
        case Some(s) =>
          if spec.targetAggregatorsPerCommittee == 0 then r.Err? else r == Ok((Selects(env, spec, a, s), s))
      }
  {
    if spec.targetAggregatorsPerCommittee != 0 {
      var m := ModulusExists(a.committeeLength, spec.targetAggregatorsPerCommittee);
      forall k: nat | IsModulus(a.committeeLength, spec.targetAggregatorsPerCommittee, k) ensures k == m {
        ModulusIsUnique(a.committeeLength, spec.targetAggregatorsPerCommittee, k, m);
      }
    }
  }

  // The duty at k is followed by an aggregate with this proof.
  ghost predicate HasAggregate(ds: seq<DutySpec>, k: nat, proof: Signature) {
    k + 1 < |ds| && ds[k + 1].job == AttestationAggregate(proof)
  }

  // The duty at k is the attestation that was asked for, and is followed by an aggregate, whose proof is the
  // validator's signature of the slot, exactly when this signature selects the validator.
  ghost predicate AttestsAt(env: Env, spec: Spec, epoch: uint64, ds: seq<DutySpec>, k: nat, a: AttesterDuty) {
    && k < |ds| && ds[k].slot == a.slot && ds[k].validatorIndex == a.validatorIndex
    && ds[k].job == Attestation(a.committeeIndex, a.committeeLength, a.committeeAtSlot)
    && match env.signSlot(epoch, a.validatorIndex, a.slot) {
      case None => false
      case Some(s) =>
        && 0 < spec.targetAggregatorsPerCommittee
        && (forall proof :: HasAggregate(ds, k, proof) <==> proof == s && Selects(env, spec, a, s))
    }
  }

  // The positions of the attestations that were asked for, in order; there are no others.
  ghost predicate AttestAt(env: Env, spec: Spec, epoch: uint64, ds: seq<DutySpec>, list: seq<AttesterDuty>,
      at: seq<nat>)
  {
    && |at| == |list|
    && (forall i | 0 <= i < |at| :: AttestsAt(env, spec, epoch, ds, at[i], list[i]))
    && (forall i, j | 0 <= i < j < |at| :: at[i] < at[j])
    && (forall k | 0 <= k < |ds| && ds[k].job.Attestation? :: k in at)
  }

  // A duty of another kind changes nothing about them.
  lemma OtherKind(env: Env, spec: Spec, epoch: uint64, ds: seq<DutySpec>, list: seq<AttesterDuty>, at: seq<nat>,
      d: DutySpec)
    requires AttestAt(env, spec, epoch, ds, list, at) && !d.job.Attestation? && !d.job.AttestationAggregate?
    ensures AttestAt(env, spec, epoch, ds + [d], list, at)
  {
    hide Selects;
    var more := ds + [d];
    forall i | 0 <= i < |at| ensures AttestsAt(env, spec, epoch, more, at[i], list[i]) {
      assert AttestsAt(env, spec, epoch, ds, at[i], list[i]);
      forall proof ensures HasAggregate(more, at[i], proof) <==> HasAggregate(ds, at[i], proof) {
      }
    }
  }

  lemma {:induction false} ProposalsDoNotAttest(env: Env, spec: Spec, eval: Evaluation, ps: seq<ProposerDuty>)
    ensures AttestAt(env, spec, eval.epoch, AddProposals(env, spec, eval, [], ps), [], [])
  {
    if ps != [] {
      var n := |ps| - 1;
      ProposalsDoNotAttest(env, spec, eval, ps[..n]);
      var before := AddProposals(env, spec, eval, [], ps[..n]);
      OtherKind(env, spec, eval.epoch, before, [], [], ProposalSpec(env, spec, eval, |before|, ps[n]));
    }
  }

  // One attestation more, with its aggregate if it is selected.
  lemma OneMoreAttests(env: Env, spec: Spec, eval: Evaluation, ds: seq<DutySpec>, list: seq<AttesterDuty>, at: seq<nat>,
      a: AttesterDuty)
    requires AttestAt(env, spec, eval.epoch, ds, list, at) && AddAttestation(env, spec, eval, ds, a).Ok?
    ensures AttestAt(env, spec, eval.epoch, AddAttestation(env, spec, eval, ds, a).value, list + [a], at + [|ds|])
  {
    hide Selects;
    var more := AddAttestation(env, spec, eval, ds, a).value;
    SelectionMeans(env, spec, eval.epoch, a);
    forall i | 0 <= i < |at| ensures AttestsAt(env, spec, eval.epoch, more, at[i], list[i]) {
      assert AttestsAt(env, spec, eval.epoch, ds, at[i], list[i]);
      forall proof ensures HasAggregate(more, at[i], proof) <==> HasAggregate(ds, at[i], proof) {
      }
    }
    assert AttestsAt(env, spec, eval.epoch, more, |ds|, a);
    assert (at + [|ds|])[|at|] == |ds|;
    forall k | 0 <= k < |more| && more[k].job.Attestation? ensures k in at + [|ds|] {
      assert k < |ds| ==> k in at;
    }
  }

  lemma {:induction false} AttestationsAttest(env: Env, spec: Spec, eval: Evaluation, ds: seq<DutySpec>,
      list: seq<AttesterDuty>) returns (at: seq<nat>)
    requires AttestAt(env, spec, eval.epoch, ds, [], []) && AddAttestations(env, spec, eval, ds, list).Ok?
    ensures AttestAt(env, spec, eval.epoch, AddAttestations(env, spec, eval, ds, list).value, list, at)
  {
    hide AttestAt, AddAttestation;
    if list == [] {
      at := [];
    } else {
      var n := |list| - 1;
      at := AttestationsAttest(env, spec, eval, ds, list[..n]);
      var before := AddAttestations(env, spec, eval, ds, list[..n]).value;
      OneMoreAttests(env, spec, eval, before, list[..n], at, list[n]);
      at := at + [|before|];
      assert list[..n] + [list[n]] == list;
    }
  }

  // Sync duties follow.

  lemma {:induction false} SyncAggregatesDoNotAttest(env: Env, spec: Spec, eval: Evaluation, ds: seq<DutySpec>,
      c: CommitteeSyncDuty, slot: uint64, subs: seq<nat>, list: seq<AttesterDuty>, at: seq<nat>)
    requires AttestAt(env, spec, eval.epoch, ds, list, at) && AddSyncAggregates(env, spec, eval, ds, c, slot, subs).Ok?
    ensures AttestAt(env, spec, eval.epoch, AddSyncAggregates(env, spec, eval, ds, c, slot, subs).value, list, at)
  {
    hide AttestAt, IsSyncCommitteeAggregator;
    if subs != [] {
      var n := |subs| - 1;
      SyncAggregatesDoNotAttest(env, spec, eval, ds, c, slot, subs[..n], list, at);
      var before := AddSyncAggregates(env, spec, eval, ds, c, slot, subs[..n]).value;
      var aggregate := IsSyncCommitteeAggregator(env, spec, eval.epoch, subs[n], slot, c.validatorIndex).value;
      if aggregate.0 {
        var d := SyncAggregateSpec(env, spec, eval, |before|, c, slot, aggregate.1, subs[n]);
        OtherKind(env, spec, eval.epoch, before, list, at, d);
      }
    }
  }

  lemma {:induction false} SlotsDoNotAttest(env: Env, spec: Spec, eval: Evaluation, ds: seq<DutySpec>,
      c: CommitteeSyncDuty, first: uint64, last: uint64, list: seq<AttesterDuty>, at: seq<nat>)
    requires AttestAt(env, spec, eval.epoch, ds, list, at) && AddSlots(env, spec, eval, ds, c, first, last).Ok?
    ensures AttestAt(env, spec, eval.epoch, AddSlots(env, spec, eval, ds, c, first, last).value, list, at)
    decreases last
  {
    hide AttestAt, Subcommittees, AddSyncAggregates;
    if first < last {
      SlotsDoNotAttest(env, spec, eval, ds, c, first, last - 1, list, at);
      var before := AddSlots(env, spec, eval, ds, c, first, last - 1).value;
      var d := SyncSpec(env, spec, eval, |before|, c, last - 1);
      OtherKind(env, spec, eval.epoch, before, list, at, d);
      SyncAggregatesDoNotAttest(env, spec, eval, before + [d], c, last - 1,
                                env.order(|before + [d]|, Subcommittees(spec, c.indices).value), list, at);
    }
  }

  lemma {:induction false} CommitteesDoNotAttest(env: Env, spec: Spec, eval: Evaluation, ds: seq<DutySpec>,
      cs: seq<CommitteeSyncDuty>, list: seq<AttesterDuty>, at: seq<nat>)
    requires AttestAt(env, spec, eval.epoch, ds, list, at) && AddCommittees(env, spec, eval, ds, cs).Ok?
    ensures AttestAt(env, spec, eval.epoch, AddCommittees(env, spec, eval, ds, cs).value, list, at)
  {
    hide AttestAt, AddSlots, FirstSlot, LastSlot;
    if cs != [] {
      var n := |cs| - 1;
      CommitteesDoNotAttest(env, spec, eval, ds, cs[..n], list, at);
      SlotsDoNotAttest(env, spec, eval, AddCommittees(env, spec, eval, ds, cs[..n]).value, cs[n],
                       FirstSlot(spec, eval.epoch), LastSlot(spec, eval.epoch), list, at);
    }
  }

  // In an expansion, each attestation that was asked for has its aggregate exactly when the digest of the
  // validator's signature of the slot is a multiple of the modulus of its committee.
  lemma AttestersSelected(env: Env, spec: Spec, eval: Evaluation) returns (at: seq<nat>)
    requires Expand(env, spec, eval).Ok?
    ensures AttestAt(env, spec, eval.epoch, Expand(env, spec, eval).value, eval.attestation, at)
  {
    hide AttestAt, AddProposals, AddAttestations, AddCommittees;
    ProposalsDoNotAttest(env, spec, eval, eval.proposer);
    var proposals := AddProposals(env, spec, eval, [], eval.proposer);
    at := AttestationsAttest(env, spec, eval, proposals, eval.attestation);
    var attestations := AddAttestations(env, spec, eval, proposals, eval.attestation).value;
    CommitteesDoNotAttest(env, spec, eval, attestations, eval.committee, eval.attestation, at);
  }

  // The order of the kinds.

  function Rank(job: Job): nat {
    match job
    case BlockProposal => 0
    case Attestation(_, _, _) => 1
    case AttestationAggregate(_) => 1
    case SyncCommittee => 2
    case SyncCommitteeAggregate(_, _) => 2
  }

  // No duty comes before one of a lower rank, and none has a rank above r.
  ghost predicate InOrder(ds: seq<DutySpec>, r: nat) {
    && (forall i, j | 0 <= i < j < |ds| :: Rank(ds[i].job) <= Rank(ds[j].job))
    && (forall i | 0 <= i < |ds| :: Rank(ds[i].job) <= r)
  }

  lemma OneMoreInOrder(ds: seq<DutySpec>, r: nat, d: DutySpec)
    requires InOrder(ds, r) && r <= Rank(d.job)
    ensures InOrder(ds + [d], Rank(d.job))
  {
  }

  lemma {:induction false} ProposalsInOrder(env: Env, spec: Spec, eval: Evaluation, ps: seq<ProposerDuty>)
    ensures InOrder(AddProposals(env, spec, eval, [], ps), 0)
  {
    if ps != [] {
      var n := |ps| - 1;
      ProposalsInOrder(env, spec, eval, ps[..n]);
      var before := AddProposals(env, spec, eval, [], ps[..n]);
      OneMoreInOrder(before, 0, ProposalSpec(env, spec, eval, |before|, ps[n]));
    }
  }

  lemma {:induction false} AttestationsInOrder(env: Env, spec: Spec, eval: Evaluation, ds: seq<DutySpec>,
      list: seq<AttesterDuty>)
    requires InOrder(ds, 1) && AddAttestations(env, spec, eval, ds, list).Ok?
    ensures InOrder(AddAttestations(env, spec, eval, ds, list).value, 1)
  {
    hide IsAttestatorAggregate;
    if list != [] {
      var n := |list| - 1;
      AttestationsInOrder(env, spec, eval, ds, list[..n]);
      var before, a := AddAttestations(env, spec, eval, ds, list[..n]).value, list[n];
      var d := AttestationSpec(env, spec, eval, |before|, a);
      OneMoreInOrder(before, 1, d);
      var aggregate := IsAttestatorAggregate(env, spec, eval.epoch, a.committeeLength, a.slot, a.validatorIndex).value;
      if aggregate.0 {
        var g := AggregateSpec(env, spec, eval, |before| + 1, a, aggregate.1, d.id);
        OneMoreInOrder(before + [d], 1, g);
        assert before + [d, g] == before + [d] + [g];
      }
    }
  }

  lemma {:induction false} SyncAggregatesInOrder(env: Env, spec: Spec, eval: Evaluation, ds: seq<DutySpec>,
      c: CommitteeSyncDuty, slot: uint64, subs: seq<nat>)
    requires InOrder(ds, 2) && AddSyncAggregates(env, spec, eval, ds, c, slot, subs).Ok?
    ensures InOrder(AddSyncAggregates(env, spec, eval, ds, c, slot, subs).value, 2)
  {
    hide IsSyncCommitteeAggregator;
    if subs != [] {
      var n := |subs| - 1;
      SyncAggregatesInOrder(env, spec, eval, ds, c, slot, subs[..n]);
      var before := AddSyncAggregates(env, spec, eval, ds, c, slot, subs[..n]).value;
      var aggregate := IsSyncCommitteeAggregator(env, spec, eval.epoch, subs[n], slot, c.validatorIndex).value;
      if aggregate.0 {
        OneMoreInOrder(before, 2, SyncAggregateSpec(env, spec, eval, |before|, c, slot, aggregate.1, subs[n]));
      }
    }
  }

  lemma {:induction false} SlotsInOrder(env: Env, spec: Spec, eval: Evaluation, ds: seq<DutySpec>,
      c: CommitteeSyncDuty, first: uint64, last: uint64)
    requires InOrder(ds, 2) && AddSlots(env, spec, eval, ds, c, first, last).Ok?
    ensures InOrder(AddSlots(env, spec, eval, ds, c, first, last).value, 2)
    decreases last
  {
    hide InOrder, Subcommittees, AddSyncAggregates;
    if first < last {
      SlotsInOrder(env, spec, eval, ds, c, first, last - 1);
      var before := AddSlots(env, spec, eval, ds, c, first, last - 1).value;
      var d := SyncSpec(env, spec, eval, |before|, c, last - 1);
      OneMoreInOrder(before, 2, d);
      SyncAggregatesInOrder(env, spec, eval, before + [d], c, last - 1,
                            env.order(|before + [d]|, Subcommittees(spec, c.indices).value));
    }
  }

  lemma {:induction false} CommitteesInOrder(env: Env, spec: Spec, eval: Evaluation, ds: seq<DutySpec>,
      cs: seq<CommitteeSyncDuty>)
    requires InOrder(ds, 2) && AddCommittees(env, spec, eval, ds, cs).Ok?
    ensures InOrder(AddCommittees(env, spec, eval, ds, cs).value, 2)
  {
    hide InOrder, AddSlots, FirstSlot, LastSlot;
    if cs != [] {
      var n := |cs| - 1;
      CommitteesInOrder(env, spec, eval, ds, cs[..n]);
      SlotsInOrder(env, spec, eval, AddCommittees(env, spec, eval, ds, cs[..n]).value, cs[n],
                   FirstSlot(spec, eval.epoch), LastSlot(spec, eval.epoch));
    }
  }

  // The proposals of an expansion come first, then the attestations with their aggregates, then the sync duties.
  lemma KindsInOrder(env: Env, spec: Spec, eval: Evaluation, i: nat, j: nat)
    requires Expand(env, spec, eval).Ok? && i < j < |Expand(env, spec, eval).value|
    ensures var ds := Expand(env, spec, eval).value; Rank(ds[i].job) <= Rank(ds[j].job)
  {
    hide AddProposals, AddAttestations, AddCommittees;
    ProposalsInOrder(env, spec, eval, eval.proposer);
    var proposals := AddProposals(env, spec, eval, [], eval.proposer);
    AttestationsInOrder(env, spec, eval, proposals, eval.attestation);
    CommitteesInOrder(
      env, spec, eval, AddAttestations(env, spec, eval, proposals, eval.attestation).value, eval.committee);
  }

  // The slots of an epoch.

  lemma SlotRange(spec: Spec, epoch: uint64)
    requires (epoch + 1) * spec.slotsPerEpoch < TWO_TO_64
    ensures FirstSlot(spec, epoch) == epoch * spec.slotsPerEpoch
    ensures LastSlot(spec, epoch) == (epoch + 1) * spec.slotsPerEpoch
  {
    assert (epoch + 1) * spec.slotsPerEpoch == epoch * spec.slotsPerEpoch + spec.slotsPerEpoch;
  }

  lemma {:induction false} SlotsForAt(c: CommitteeSyncDuty, first: uint64, last: uint64, j: nat)
    requires first <= last
    ensures |SlotsFor(c, first, last)| == last - first
    ensures j < last - first ==> SlotsFor(c, first, last)[j] == (c.validatorIndex, first + j)
    decreases last
  {
    if first < last {
      SlotsForAt(c, first, last - 1, j);
    }
  }

  lemma {:induction false} SyncGridAt(cs: seq<CommitteeSyncDuty>, first: uint64, last: uint64, i: nat, j: nat)
    requires first <= last
    ensures |SyncGrid(cs, first, last)| == |cs| * (last - first)
    ensures i < |cs| && j < last - first ==>
      i * (last - first) + j < |cs| * (last - first)
      && SyncGrid(cs, first, last)[i * (last - first) + j] == (cs[i].validatorIndex, first + j)
  {
    if cs != [] {
      var n, width := |cs| - 1, last - first;
      SyncGridAt(cs[..n], first, last, i, j);
      SlotsForAt(cs[n], first, last, j);
      OneMoreRow(n, width);
      if i < n && j < width {
        RowEnds(i, j, n, width);
      }
    }
  }

  lemma OneMoreRow(n: nat, width: nat)
    ensures (n + 1) * width == n * width + width
  {
  }

  lemma RowEnds(i: nat, j: nat, n: nat, width: nat)
    requires i < n && j < width
    ensures i * width + j < n * width
  {
    Steps(i, n, width);
  }

  lemma SyncGridOf(cs: seq<CommitteeSyncDuty>, first: uint64, last: uint64, n: nat, i: nat, j: nat)
    requires last == first + n
    ensures |SyncGrid(cs, first, last)| == |cs| * n
    ensures i < |cs| && j < n ==>
      i * n + j < |cs| * n && SyncGrid(cs, first, last)[i * n + j] == (cs[i].validatorIndex, first + j)
  {
    assert n == last - first;
    SyncGridAt(cs, first, last, i, j);
  }

  // Entry by entry, there is one sync duty for each slot of the epoch, in order.
  lemma SyncsInNumbers(env: Env, spec: Spec, eval: Evaluation, i: nat, j: nat)
    requires env.Valid() && Expand(env, spec, eval).Ok? && (eval.epoch + 1) * spec.slotsPerEpoch < TWO_TO_64
    ensures var syncs, n := SyncsOf(Expand(env, spec, eval).value), spec.slotsPerEpoch;
      && |syncs| == |eval.committee| * n
      && (i < |eval.committee| && j < n ==>
            i * n + j < |syncs| && syncs[i * n + j] == (eval.committee[i].validatorIndex, eval.epoch * n + j))
  {
    hide *;
    var first, last := SyncsAreGrid(env, spec, eval);
    SyncGridOf(eval.committee, first, last, spec.slotsPerEpoch, i, j);
  }

  lemma SyncsAreGrid(env: Env, spec: Spec, eval: Evaluation) returns (first: uint64, last: uint64)
    requires env.Valid() && Expand(env, spec, eval).Ok? && (eval.epoch + 1) * spec.slotsPerEpoch < TWO_TO_64
    ensures first == eval.epoch * spec.slotsPerEpoch && last == first + spec.slotsPerEpoch
    ensures SyncsOf(Expand(env, spec, eval).value) == SyncGrid(eval.committee, first, last)
  {
    hide Expand, SyncsOf, SyncGrid, FirstSlot, LastSlot, AreCommitteeGroups, Selected;
    ExpansionReadsBack(env, spec, eval);
    SlotRange(spec, eval.epoch);
    first, last := FirstSlot(spec, eval.epoch), LastSlot(spec, eval.epoch);
  }

  // Sync aggregates.

  // A sixty-fourth of the sync committee, rounded down, but at least 1.
  ghost predicate IsSyncModulus(spec: Spec, m: nat) {
    0 < m && if spec.syncCommitteeSize < 64 then m == 1 else 64 * m <= spec.syncCommitteeSize < 64 * (m + 1)
  }

  ghost predicate SyncSelects(env: Env, spec: Spec, proof: Signature) {
    exists m: nat :: IsSyncModulus(spec, m) && env.digest(proof) % m == 0
  }

  lemma SyncSelectionMeans(env: Env, spec: Spec, epoch: uint64, sub: nat, slot: uint64, v: uint64)
    ensures var r := IsSyncCommitteeAggregator(env, spec, epoch, sub, slot, v);
      match env.signSubcommittee(epoch, v, slot, sub) {
        case None => r.Err?
        case Some(s) => r == Ok((SyncSelects(env, spec, s), s))
      }
  {
    var q := spec.syncCommitteeSize / 4 / 16;
    assert 64 * q <= spec.syncCommitteeSize < 64 * (q + 1);
    var m := if q < 1 then 1 else q;
    assert IsSyncModulus(spec, m) && forall k: nat | IsSyncModulus(spec, k) :: k == m;
  }

  // An index of the entry falls into the subcommittee: a quarter of the sync committee, rounded down.
  ghost predicate InSubcommittee(spec: Spec, c: CommitteeSyncDuty, sub: nat) {
    exists j, size: nat ::
      && 0 <= j < |c.indices| && ParseUint32(c.indices[j]).Some?
      && IsQuarter(spec, size) && InRange(ParseUint32(c.indices[j]).value, size, sub)
  }

  ghost predicate IsQuarter(spec: Spec, size: nat) {
    4 * size <= spec.syncCommitteeSize < 4 * (size + 1)
  }

  ghost predicate InRange(index: nat, size: nat, sub: nat) {
    sub * size <= index < (sub + 1) * size
  }

  lemma RangesAreApart(index: nat, size: nat, a: nat, b: nat)
    requires InRange(index, size, a) && InRange(index, size, b)
    ensures a == b
  {
    Steps(a, b, size);
    Steps(b, a, size);
  }

  lemma QuotientInRange(index: nat, size: nat)
    requires 0 < size
    ensures InRange(index, size, index / size)
  {
    QuotientIsBetween(index, size);
  }

  lemma OnlySubcommittee(index: nat, size: nat, sub: nat)
    requires 0 < size
    ensures InRange(index, size, sub) <==> sub == index / size
  {
    hide InRange;
    QuotientInRange(index, size);
    if InRange(index, size, sub) {
      RangesAreApart(index, size, sub, index / size);
    }
  }

  lemma SubcommitteesInNumbers(spec: Spec, c: CommitteeSyncDuty, sub: nat)
    requires Subcommittees(spec, c.indices).Ok?
    ensures sub in Subcommittees(spec, c.indices).value <==> InSubcommittee(spec, c, sub)
  {
    var size := SubcommitteeSize(spec);
    assert IsQuarter(spec, size) && forall other: nat | IsQuarter(spec, other) :: other == size;
    if c.indices != [] {
      forall j | 0 <= j < |c.indices|
        ensures InRange(ParseUint32(c.indices[j]).value, size, sub) <==>
          sub == SubcommitteeOf(ParseUint32(c.indices[j]), size)
      {
        OnlySubcommittee(ParseUint32(c.indices[j]).value, size, sub);
      }
    }
  }

  // What a sync aggregate of an expansion is: of a committee entry, for a slot of the epoch, in a subcommittee
  // of the entry, with a signature that selects the validator.
  ghost predicate IsSyncAggregate(env: Env, spec: Spec, epoch: uint64, c: CommitteeSyncDuty, x: SubSelection) {
    && x.0 == c.validatorIndex
    && InSubcommittee(spec, c, x.2)
    && env.signSubcommittee(epoch, x.0, x.1, x.2) == Some(x.3) && SyncSelects(env, spec, x.3)
  }

  lemma GroupInNumbers(env: Env, spec: Spec, epoch: uint64, c: CommitteeSyncDuty, slot: uint64,
      group: seq<SubSelection>, x: SubSelection)
    requires Subcommittees(spec, c.indices).Ok?
    requires IsSyncGroup(env, spec, epoch, c, slot, Subcommittees(spec, c.indices).value, group)
    ensures x in group <==> x.1 == slot && IsSyncAggregate(env, spec, epoch, c, x)
  {
    hide Subcommittees, InSubcommittee, SyncSelects, IsSyncCommitteeAggregator;
    SubcommitteesInNumbers(spec, c, x.2);
    SyncSelectionMeans(env, spec, epoch, x.2, slot, c.validatorIndex);
  }

  lemma {:induction false} SlotGroupsInNumbers(env: Env, spec: Spec, epoch: uint64, c: CommitteeSyncDuty,
      first: uint64, last: uint64, list: seq<SubSelection>, x: SubSelection)
    requires Subcommittees(spec, c.indices).Ok?
    requires AreSlotGroups(env, spec, epoch, c, Subcommittees(spec, c.indices).value, first, last, list)
    ensures x in list <==> first <= x.1 < last && IsSyncAggregate(env, spec, epoch, c, x)
    decreases last
  {
    hide Subcommittees, IsSyncAggregate, IsSyncGroup;
    if first < last {
      var k :| 0 <= k <= |list|
        && AreSlotGroups(env, spec, epoch, c, Subcommittees(spec, c.indices).value, first, last - 1, list[..k])
        && IsSyncGroup(env, spec, epoch, c, last - 1, Subcommittees(spec, c.indices).value, list[k..]);
      SlotGroupsInNumbers(env, spec, epoch, c, first, last - 1, list[..k], x);
      GroupInNumbers(env, spec, epoch, c, last - 1, list[k..], x);
      assert list == list[..k] + list[k..];
    }
  }

  ghost predicate IsSomeSyncAggregate(env: Env, spec: Spec, epoch: uint64, cs: seq<CommitteeSyncDuty>,
      x: SubSelection)
  {
    exists i :: 0 <= i < |cs| && IsSyncAggregate(env, spec, epoch, cs[i], x)
  }

  lemma {:induction false} CommitteeGroupsInNumbers(env: Env, spec: Spec, epoch: uint64, cs: seq<CommitteeSyncDuty>,
      first: uint64, last: uint64, list: seq<SubSelection>, x: SubSelection)
    requires first < last && AreCommitteeGroups(env, spec, epoch, cs, first, last, list)
    ensures x in list <==> first <= x.1 < last && IsSomeSyncAggregate(env, spec, epoch, cs, x)
  {
    hide Subcommittees, IsSyncAggregate, AreSlotGroups;
    if cs != [] {
      var n := |cs| - 1;
      var k :| 0 <= k <= |list|
        && Subcommittees(spec, cs[n].indices).Ok?
        && AreCommitteeGroups(env, spec, epoch, cs[..n], first, last, list[..k])
        && AreSlotGroups(env, spec, epoch, cs[n], Subcommittees(spec, cs[n].indices).value, first, last, list[k..]);
      CommitteeGroupsInNumbers(env, spec, epoch, cs[..n], first, last, list[..k], x);
      SlotGroupsInNumbers(env, spec, epoch, cs[n], first, last, list[k..], x);
      assert list == list[..k] + list[k..];
      assert forall i | 0 <= i < n :: cs[..n][i] == cs[i];
    }
  }

  // The sync aggregates of an expansion.
  lemma SyncAggregatesInNumbers(env: Env, spec: Spec, eval: Evaluation, x: SubSelection)
    requires env.Valid() && Expand(env, spec, eval).Ok?
    requires 0 < spec.slotsPerEpoch && (eval.epoch + 1) * spec.slotsPerEpoch < TWO_TO_64
    ensures x in SyncAggregatesOf(Expand(env, spec, eval).value) <==>
      && eval.epoch * spec.slotsPerEpoch <= x.1 < eval.epoch * spec.slotsPerEpoch + spec.slotsPerEpoch
      && IsSomeSyncAggregate(env, spec, eval.epoch, eval.committee, x)
  {
    hide Expand, SyncAggregatesOf, SyncGrid, FirstSlot, LastSlot, AreCommitteeGroups, Selected, IsSomeSyncAggregate;
    ExpansionReadsBack(env, spec, eval);
    SlotRange(spec, eval.epoch);
    CommitteeGroupsInNumbers(env, spec, eval.epoch, eval.committee, FirstSlot(spec, eval.epoch),
                             LastSlot(spec, eval.epoch), SyncAggregatesOf(Expand(env, spec, eval).value), x);
  }

  // When an expansion fails.

  ghost predicate AttesterFails(env: Env, spec: Spec, epoch: uint64, a: AttesterDuty) {
    spec.targetAggregatorsPerCommittee == 0 || env.signSlot(epoch, a.validatorIndex, a.slot) == None
  }

  lemma AttestationFailsExactly(env: Env, spec: Spec, eval: Evaluation, ds: seq<DutySpec>, a: AttesterDuty)
    ensures AddAttestation(env, spec, eval, ds, a).Err? <==> AttesterFails(env, spec, eval.epoch, a)
  {
    hide Selects;
    SelectionMeans(env, spec, eval.epoch, a);
    if spec.targetAggregatorsPerCommittee == 0 {
      assert IsAttestatorAggregate(env, spec, eval.epoch, a.committeeLength, a.slot, a.validatorIndex).Err?;
    }
  }

  lemma {:induction false} AttestationsFailExactly(env: Env, spec: Spec, eval: Evaluation, ds: seq<DutySpec>,
      list: seq<AttesterDuty>)
    ensures AddAttestations(env, spec, eval, ds, list).Err? <==>
      exists i :: 0 <= i < |list| && AttesterFails(env, spec, eval.epoch, list[i])
  {
    hide AddAttestation, AttesterFails;
    if list != [] {
      var n := |list| - 1;
      AttestationsFailExactly(env, spec, eval, ds, list[..n]);
      var before := AddAttestations(env, spec, eval, ds, list[..n]);
      assert forall i | 0 <= i < n :: list[..n][i] == list[i];
      if before.Ok? {
        AttestationFailsExactly(env, spec, eval, before.value, list[n]);
      }
    }
  }

  // An index is not a number, or the committee is too small to be divided, or a signature fails.
  ghost predicate SyncFails(env: Env, spec: Spec, epoch: uint64, c: CommitteeSyncDuty, slot: uint64) {
    || (exists j :: 0 <= j < |c.indices| && ParseUint32(c.indices[j]) == None)
    || (c.indices != [] && spec.syncCommitteeSize < 4)
    || (exists sub: nat ::
          InSubcommittee(spec, c, sub) && env.signSubcommittee(epoch, c.validatorIndex, slot, sub) == None)
  }

  lemma {:induction false} SyncAggregatesFailExactly(env: Env, spec: Spec, eval: Evaluation, ds: seq<DutySpec>,
      c: CommitteeSyncDuty, slot: uint64, subs: seq<nat>)
    ensures AddSyncAggregates(env, spec, eval, ds, c, slot, subs).Err? <==>
      exists i :: 0 <= i < |subs| && env.signSubcommittee(eval.epoch, c.validatorIndex, slot, subs[i]) == None
  {
    hide IsSyncCommitteeAggregator, SyncSelects;
    if subs != [] {
      var n := |subs| - 1;
      SyncAggregatesFailExactly(env, spec, eval, ds, c, slot, subs[..n]);
      SyncSelectionMeans(env, spec, eval.epoch, subs[n], slot, c.validatorIndex);
      assert forall i | 0 <= i < n :: subs[..n][i] == subs[i];
    }
  }

  lemma SyncFailsExactly(env: Env, spec: Spec, eval: Evaluation, ds: seq<DutySpec>, c: CommitteeSyncDuty, slot: uint64)
    requires env.Valid()
    ensures AddSync(env, spec, eval, ds, c, slot).Err? <==> SyncFails(env, spec, eval.epoch, c, slot)
  {
    var more := ds + [SyncSpec(env, spec, eval, |ds|, c, slot)];
    var subs := Subcommittees(spec, c.indices);
    if subs.Ok? {
      hide InSubcommittee, AddSyncAggregates;
      var order := env.order(|more|, subs.value);
      assert Enumerates(order, subs.value);
      SyncAggregatesFailExactly(env, spec, eval, more, c, slot, order);
      forall sub: nat ensures sub in subs.value <==> InSubcommittee(spec, c, sub) {
        SubcommitteesInNumbers(spec, c, sub);
      }
    }
  }

  lemma {:induction false} SlotsFailExactly(env: Env, spec: Spec, eval: Evaluation, ds: seq<DutySpec>,
      c: CommitteeSyncDuty, first: uint64, last: uint64)
    requires env.Valid()
    ensures AddSlots(env, spec, eval, ds, c, first, last).Err? <==>
      exists slot: uint64 :: first <= slot < last && SyncFails(env, spec, eval.epoch, c, slot)
    decreases last
  {
    hide AddSync, SyncFails, Env.Valid;
    if first < last {
      SlotsFailExactly(env, spec, eval, ds, c, first, last - 1);
      var before := AddSlots(env, spec, eval, ds, c, first, last - 1);
      if before.Ok? {
        SyncFailsExactly(env, spec, eval, before.value, c, last - 1);
      }
    }
  }

  ghost predicate EntryFails(env: Env, spec: Spec, epoch: uint64, c: CommitteeSyncDuty, first: uint64, last: uint64) {
    exists slot: uint64 :: first <= slot < last && SyncFails(env, spec, epoch, c, slot)
  }

  lemma {:induction false} CommitteesFailExactly(env: Env, spec: Spec, eval: Evaluation, ds: seq<DutySpec>,
      cs: seq<CommitteeSyncDuty>)
    requires env.Valid()
    ensures var first, last := FirstSlot(spec, eval.epoch), LastSlot(spec, eval.epoch);
      AddCommittees(env, spec, eval, ds, cs).Err? <==>
        exists i :: 0 <= i < |cs| && EntryFails(env, spec, eval.epoch, cs[i], first, last)
  {
    hide AddSlots, Env.Valid, FirstSlot, LastSlot, SyncFails;
    if cs != [] {
      var n := |cs| - 1;
      CommitteesFailExactly(env, spec, eval, ds, cs[..n]);
      assert forall i | 0 <= i < n :: cs[..n][i] == cs[i];
      var before := AddCommittees(env, spec, eval, ds, cs[..n]);
      if before.Ok? {
        SlotsFailExactly(env, spec, eval, before.value, cs[n], FirstSlot(spec, eval.epoch), LastSlot(spec, eval.epoch));
      }
    }
  }

  // An expansion fails exactly when it fails on an attestation, or on a committee entry at a slot of the epoch.
  lemma ExpansionFailsExactly(env: Env, spec: Spec, eval: Evaluation)
    requires env.Valid() && (eval.epoch + 1) * spec.slotsPerEpoch < TWO_TO_64
    ensures var first, last := eval.epoch * spec.slotsPerEpoch, (eval.epoch + 1) * spec.slotsPerEpoch;
      Expand(env, spec, eval).Err? <==>
        || (exists i :: 0 <= i < |eval.attestation| && AttesterFails(env, spec, eval.epoch, eval.attestation[i]))
        || (exists i :: 0 <= i < |eval.committee| && EntryFails(env, spec, eval.epoch, eval.committee[i], first, last))
  {
    hide AddProposals, AddAttestations, AddCommittees, AttesterFails, EntryFails, Env.Valid, FirstSlot, LastSlot;
    SlotRange(spec, eval.epoch);
    var proposals := AddProposals(env, spec, eval, [], eval.proposer);
    AttestationsFailExactly(env, spec, eval, proposals, eval.attestation);
    var attestations := AddAttestations(env, spec, eval, proposals, eval.attestation);
    if attestations.Ok? {
      CommitteesFailExactly(env, spec, eval, attestations.value, eval.committee);
    }
  }

  // Decimal numbers.

  // How a number is written.
  function Digits(n: nat): (s: seq<byte>)
    ensures s != []
  {
    if n < 10 then [(48 + n) as byte] else Digits(n / 10) + [(48 + n % 10) as byte]
  }

  lemma {:induction false} DecimalOfDigits(n: nat)
    ensures Decimal(Digits(n)) == n && forall b | b in Digits(n) :: IsDigit(b)
  {
    if n < 10 {
      assert Digits(n)[..0] == [];
    } else {
      DecimalOfDigits(n / 10);
      assert Digits(n)[..|Digits(n)| - 1] == Digits(n / 10);
    }
  }

  lemma {:induction false} LeadingZero(s: seq<byte>)
    ensures Decimal([48] + s) == Decimal(s)
  {
    if s == [] {
      assert ([48] + s)[..0] == [];
    } else {
      LeadingZero(s[..|s| - 1]);
      assert ([48] + s)[..|s|] == [48] + s[..|s| - 1];
    }
  }

  // Every number that is written in decimal digits is read back, if it fits into 32 bits, also after zeros;
  // and nothing else is read.
  lemma ParsingReadsBack(n: nat, s: seq<byte>)
    ensures ParseUint32(Digits(n)) == if n < 0x1_0000_0000 then Some(n) else None
    ensures s != [] ==> ParseUint32([48] + s) == ParseUint32(s)
    ensures s == [] || (exists b :: b in s && !(48 <= b <= 57)) ==> ParseUint32(s) == None
  {
    DecimalOfDigits(n);
    LeadingZero(s);
    assert forall b :: b in [48] + s <==> b == 48 || b in s;
  }

  // Forks.

  // Each fork begins at its epoch and lasts until a later one begins.
  lemma ForksInOrder(spec: Spec, epoch: uint64)
    ensures ForkAt(spec, epoch) == Phase0 <==> epoch < spec.altairForkEpoch && epoch < spec.bellatrixForkEpoch
    ensures ForkAt(spec, epoch) == Altair <==> spec.altairForkEpoch <= epoch < spec.bellatrixForkEpoch
    ensures ForkAt(spec, epoch) == Bellatrix <==> spec.bellatrixForkEpoch <= epoch
  {
  }

  // 64-bit arithmetic.

  // The result of wrapping is in range and differs by a multiple of 2^64.
  lemma WrappingIsCongruent(x: int) returns (k: int, l: int)
    ensures Wrap(x) == x + k * TWO_TO_64 && 0 <= Wrap(x) < TWO_TO_64
    ensures WrapInt64(x) == x + l * TWO_TO_64 && -TWO_TO_63 <= WrapInt64(x) < TWO_TO_63
  {
    k := -(x / TWO_TO_64);
    l := if Wrap(x) < TWO_TO_63 then k else k - 1;
  }

  // Division by a positive number drops the fraction, toward zero: its size is the size's quotient, rounded down.
  lemma DivisionTruncates(x: int, y: int)
    requires 0 < y
    ensures var q := TruncDiv(x, y);
      if 0 <= x then 0 <= q && q * y <= x < (q + 1) * y
      else q <= 0 && -q * y <= -x < (-q + 1) * y
  {
    var size: nat := if 0 <= x then x else -x;
    QuotientIsBetween(size, y);
    assert TruncDiv(x, y) == if 0 <= x then size / y else -(size / y);
    QuotientIsNat(size, y);
  }

  lemma QuotientIsNat(size: nat, y: nat)
    requires 0 < y
    ensures 0 <= size / y
  {
  }
}
