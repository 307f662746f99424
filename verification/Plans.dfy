/** What the scheduler's plans contain. */
module Plans {
  import opened Types
  import opened Duties
  import opened Schedulers

  // The duty at position k has the k-th id, the active time of its kind, and no dependency, except that an
  // aggregate depends on the duty right before it, an attestation for the same slot and validator.
  ghost predicate DutyFits(env: Env, spec: Spec, eval: Evaluation, ds: seq<DutySpec>, k: nat)
    requires k < |ds|
  {
    var d := ds[k];
    var start := AtSlot(spec, eval.genesisTime, d.slot);
    && d.id == env.newId(k) && d.epoch == eval.epoch
    && match d.job {
      case BlockProposal => d.activeTime == start && d.blockedBy == []
      case Attestation(_, _, _) => d.activeTime == start + FirstDelay(spec) && d.blockedBy == []
      case AttestationAggregate(_) =>
        && d.activeTime == start + AggregationDelay(spec)
        && 0 < k && ds[k - 1].job.Attestation?
        && ds[k - 1].slot == d.slot && ds[k - 1].validatorIndex == d.validatorIndex
        && d.blockedBy == [ds[k - 1].id]
      case SyncCommittee => d.activeTime == start + FirstDelay(spec) && d.blockedBy == []
      case SyncCommitteeAggregate(_, _) => d.activeTime == start + AggregationDelay(spec) && d.blockedBy == []
    }
  }

  ghost predicate Fits(env: Env, spec: Spec, eval: Evaluation, ds: seq<DutySpec>) {
    forall k | 0 <= k < |ds| :: DutyFits(env, spec, eval, ds, k)
  }

  lemma AppendFits(env: Env, spec: Spec, eval: Evaluation, ds: seq<DutySpec>, d: DutySpec)
    requires Fits(env, spec, eval, ds) && DutyFits(env, spec, eval, ds + [d], |ds|)
    ensures Fits(env, spec, eval, ds + [d])
  {
    forall k | 0 <= k < |ds| ensures DutyFits(env, spec, eval, ds + [d], k) {
      assert DutyFits(env, spec, eval, ds, k);
    }
  }

  lemma {:induction false} ProposalsFit(env: Env, spec: Spec, eval: Evaluation, ds: seq<DutySpec>,
      ps: seq<ProposerDuty>)
    requires Fits(env, spec, eval, ds)
    ensures Fits(env, spec, eval, AddProposals(env, spec, eval, ds, ps))
  {
    if ps != [] {
      ProposalsFit(env, spec, eval, ds, ps[..|ps| - 1]);
      var before := AddProposals(env, spec, eval, ds, ps[..|ps| - 1]);
      AppendFits(env, spec, eval, before, ProposalSpec(env, spec, eval, |before|, ps[|ps| - 1]));
    }
  }

  lemma AttestationFits(env: Env, spec: Spec, eval: Evaluation, ds: seq<DutySpec>, a: AttesterDuty)
    requires Fits(env, spec, eval, ds) && AddAttestation(env, spec, eval, ds, a).Ok?
    ensures Fits(env, spec, eval, AddAttestation(env, spec, eval, ds, a).value)
  {
    var d := AttestationSpec(env, spec, eval, |ds|, a);
    AppendFits(env, spec, eval, ds, d);
    var aggregate := IsAttestatorAggregate(env, spec, eval.epoch, a.committeeLength, a.slot, a.validatorIndex).value;
    if aggregate.0 {
      var g := AggregateSpec(env, spec, eval, |ds| + 1, a, aggregate.1, d.id);
      AppendFits(env, spec, eval, ds + [d], g);
      assert ds + [d, g] == ds + [d] + [g];
    }
  }

  lemma {:induction false} AttestationsFit(env: Env, spec: Spec, eval: Evaluation, ds: seq<DutySpec>,
      attestations: seq<AttesterDuty>)
    requires Fits(env, spec, eval, ds) && AddAttestations(env, spec, eval, ds, attestations).Ok?
    ensures Fits(env, spec, eval, AddAttestations(env, spec, eval, ds, attestations).value)
  {
    if attestations != [] {
      var n := |attestations| - 1;
      AttestationsFit(env, spec, eval, ds, attestations[..n]);
      AttestationFits(env, spec, eval, AddAttestations(env, spec, eval, ds, attestations[..n]).value, attestations[n]);
    }
  }

  lemma {:induction false} SyncAggregatesFit(env: Env, spec: Spec, eval: Evaluation, ds: seq<DutySpec>,
      c: CommitteeSyncDuty, slot: uint64, subs: seq<nat>)
    requires Fits(env, spec, eval, ds) && AddSyncAggregates(env, spec, eval, ds, c, slot, subs).Ok?
    ensures Fits(env, spec, eval, AddSyncAggregates(env, spec, eval, ds, c, slot, subs).value)
  {
    if subs != [] {
      var n := |subs| - 1;
      SyncAggregatesFit(env, spec, eval, ds, c, slot, subs[..n]);
      var before := AddSyncAggregates(env, spec, eval, ds, c, slot, subs[..n]).value;
      var aggregate := IsSyncCommitteeAggregator(env, spec, eval.epoch, subs[n], slot, c.validatorIndex).value;
      if aggregate.0 {
        AppendFits(env, spec, eval, before,
          SyncAggregateSpec(env, spec, eval, |before|, c, slot, aggregate.1, subs[n]));
      }
    }
  }

  lemma {:induction false} SlotsFit(env: Env, spec: Spec, eval: Evaluation, ds: seq<DutySpec>, c: CommitteeSyncDuty,
      first: uint64, last: uint64)
    requires Fits(env, spec, eval, ds) && AddSlots(env, spec, eval, ds, c, first, last).Ok?
    ensures Fits(env, spec, eval, AddSlots(env, spec, eval, ds, c, first, last).value)
    decreases last
  {
    hide Fits, Subcommittees, AddSyncAggregates;
    if first < last {
      SlotsFit(env, spec, eval, ds, c, first, last - 1);
      var before := AddSlots(env, spec, eval, ds, c, first, last - 1).value;
      var d := SyncSpec(env, spec, eval, |before|, c, last - 1);
      AppendFits(env, spec, eval, before, d);
      SyncAggregatesFit(env, spec, eval, before + [d], c, last - 1,
                        env.order(|before + [d]|, Subcommittees(spec, c.indices).value));
    }
  }

  lemma {:induction false} CommitteesFit(env: Env, spec: Spec, eval: Evaluation, ds: seq<DutySpec>,
      cs: seq<CommitteeSyncDuty>)
    requires Fits(env, spec, eval, ds) && AddCommittees(env, spec, eval, ds, cs).Ok?
    ensures Fits(env, spec, eval, AddCommittees(env, spec, eval, ds, cs).value)
  {
    if cs != [] {
      var n := |cs| - 1;
      CommitteesFit(env, spec, eval, ds, cs[..n]);
      SlotsFit(env, spec, eval, AddCommittees(env, spec, eval, ds, cs[..n]).value, cs[n],
               FirstSlot(spec, eval.epoch), LastSlot(spec, eval.epoch));
    }
  }

  // Every duty of an expansion has its id, time and dependency.
  lemma ExpansionFits(env: Env, spec: Spec, eval: Evaluation)
    requires Expand(env, spec, eval).Ok?
    ensures Fits(env, spec, eval, Expand(env, spec, eval).value)
  {
    ProposalsFit(env, spec, eval, [], eval.proposer);
    var proposals := AddProposals(env, spec, eval, [], eval.proposer);
    AttestationsFit(env, spec, eval, proposals, eval.attestation);
    CommitteesFit(env, spec, eval, AddAttestations(env, spec, eval, proposals, eval.attestation).value, eval.committee);
  }

  // What was asked for can be read back from the duties.

  function ProposalsOf(ds: seq<DutySpec>): seq<ProposerDuty> {
    if ds == [] then []
    else
      var d := ds[|ds| - 1];
      ProposalsOf(ds[..|ds| - 1]) + if d.job.BlockProposal? then [ProposerDuty(d.slot, d.validatorIndex)] else []
  }

  function AttestationsOf(ds: seq<DutySpec>): seq<AttesterDuty> {
    if ds == [] then []
    else
      var d := ds[|ds| - 1];
      AttestationsOf(ds[..|ds| - 1])
      + match d.job
        case Attestation(index, length, atSlot) => [AttesterDuty(d.slot, d.validatorIndex, index, length, atSlot)]
        case _ => []
  }

  // A slot, a validator and a selection proof.
  type Selection = (uint64, uint64, Signature)

  function AggregatesOf(ds: seq<DutySpec>): seq<Selection> {
    if ds == [] then []
    else
      var d := ds[|ds| - 1];
      AggregatesOf(ds[..|ds| - 1])
      + match d.job
        case AttestationAggregate(proof) => [(d.slot, d.validatorIndex, proof)]
        case _ => []
  }

  // A validator and a slot.
  function SyncsOf(ds: seq<DutySpec>): seq<(uint64, uint64)> {
    if ds == [] then []
    else
      var d := ds[|ds| - 1];
      SyncsOf(ds[..|ds| - 1]) + if d.job.SyncCommittee? then [(d.validatorIndex, d.slot)] else []
  }

  // A validator, a slot, a subcommittee and a selection proof.
  type SubSelection = (uint64, uint64, nat, Signature)

  function SyncAggregatesOf(ds: seq<DutySpec>): seq<SubSelection> {
    if ds == [] then []
    else
      var d := ds[|ds| - 1];
      SyncAggregatesOf(ds[..|ds| - 1])
      + match d.job
        case SyncCommitteeAggregate(proof, sub) => [(d.validatorIndex, d.slot, sub, proof)]
        case _ => []
  }

  datatype Summary = Summary(
    proposals: seq<ProposerDuty>, attestations: seq<AttesterDuty>, aggregates: seq<Selection>,
    syncs: seq<(uint64, uint64)>, syncAggregates: seq<SubSelection>)

  function Summarize(ds: seq<DutySpec>): Summary {
    Summary(ProposalsOf(ds), AttestationsOf(ds), AggregatesOf(ds), SyncsOf(ds), SyncAggregatesOf(ds))
  }

  lemma SummarizeMore(ds: seq<DutySpec>, d: DutySpec)
    ensures Summarize(ds + [d]) ==
      match d.job {
        case BlockProposal =>
          Summarize(ds).(proposals := ProposalsOf(ds) + [ProposerDuty(d.slot, d.validatorIndex)])
        case Attestation(index, length, atSlot) =>
          Summarize(ds).(attestations := AttestationsOf(ds) +
            [AttesterDuty(d.slot, d.validatorIndex, index, length, atSlot)])
        case AttestationAggregate(proof) =>
          Summarize(ds).(aggregates := AggregatesOf(ds) + [(d.slot, d.validatorIndex, proof)])
        case SyncCommittee =>
          Summarize(ds).(syncs := SyncsOf(ds) + [(d.validatorIndex, d.slot)])
        case SyncCommitteeAggregate(proof, sub) =>
          Summarize(ds).(syncAggregates := SyncAggregatesOf(ds) + [(d.validatorIndex, d.slot, sub, proof)])
      }
  {
    assert (ds + [d])[..|ds|] == ds;
  }

  function SelectedOne(env: Env, spec: Spec, epoch: uint64, a: AttesterDuty): seq<Selection> {
    match IsAttestatorAggregate(env, spec, epoch, a.committeeLength, a.slot, a.validatorIndex)
    case Ok((true, proof)) => [(a.slot, a.validatorIndex, proof)]
    case _ => []
  }

  // The attestations whose selection proof makes the validator an aggregator.
  function Selected(env: Env, spec: Spec, epoch: uint64, attestations: seq<AttesterDuty>): seq<Selection> {
    if attestations == [] then []
    else
      Selected(env, spec, epoch, attestations[..|attestations| - 1])
      + SelectedOne(env, spec, epoch, attestations[|attestations| - 1])
  }

  function SelectedSubcommittees(env: Env, spec: Spec, epoch: uint64, c: CommitteeSyncDuty, slot: uint64,
      subs: seq<nat>)
    : seq<SubSelection>
  {
    if subs == [] then []
    else
      var sub := subs[|subs| - 1];
      SelectedSubcommittees(env, spec, epoch, c, slot, subs[..|subs| - 1])
      + match IsSyncCommitteeAggregator(env, spec, epoch, sub, slot, c.validatorIndex)
        case Ok((true, proof)) => [(c.validatorIndex, slot, sub, proof)]
        case _ => []
  }

  function SlotsFor(c: CommitteeSyncDuty, first: uint64, last: uint64): seq<(uint64, uint64)>
    decreases last
  {
    if last <= first then [] else SlotsFor(c, first, last - 1) + [(c.validatorIndex, last - 1)]
  }

  function SyncGrid(cs: seq<CommitteeSyncDuty>, first: uint64, last: uint64): seq<(uint64, uint64)> {
    if cs == [] then [] else SyncGrid(cs[..|cs| - 1], first, last) + SlotsFor(cs[|cs| - 1], first, last)
  }

  lemma {:induction false} ProposalsReadBack(env: Env, spec: Spec, eval: Evaluation, ds: seq<DutySpec>,
      ps: seq<ProposerDuty>)
    ensures Summarize(AddProposals(env, spec, eval, ds, ps)) == Summarize(ds).(proposals := ProposalsOf(ds) + ps)
  {
    if ps != [] {
      var n := |ps| - 1;
      ProposalsReadBack(env, spec, eval, ds, ps[..n]);
      var before := AddProposals(env, spec, eval, ds, ps[..n]);
      SummarizeMore(before, ProposalSpec(env, spec, eval, |before|, ps[n]));
      assert ps == ps[..n] + [ps[n]];
    } else {
      assert ProposalsOf(ds) + ps == ProposalsOf(ds);
    }
  }

  lemma AttestationReadBack(env: Env, spec: Spec, eval: Evaluation, ds: seq<DutySpec>, a: AttesterDuty)
    requires AddAttestation(env, spec, eval, ds, a).Ok?
    ensures Summarize(AddAttestation(env, spec, eval, ds, a).value) ==
      Summarize(ds).(attestations := AttestationsOf(ds) + [a],
                     aggregates := AggregatesOf(ds) + SelectedOne(env, spec, eval.epoch, a))
  {
    var d := AttestationSpec(env, spec, eval, |ds|, a);
    SummarizeMore(ds, d);
    var aggregate := IsAttestatorAggregate(env, spec, eval.epoch, a.committeeLength, a.slot, a.validatorIndex).value;
    if aggregate.0 {
      var g := AggregateSpec(env, spec, eval, |ds| + 1, a, aggregate.1, d.id);
      SummarizeMore(ds + [d], g);
      assert ds + [d, g] == ds + [d] + [g];
    }
  }

  lemma {:induction false} AttestationsReadBack(env: Env, spec: Spec, eval: Evaluation, ds: seq<DutySpec>,
      attestations: seq<AttesterDuty>)
    requires AddAttestations(env, spec, eval, ds, attestations).Ok?
    ensures Summarize(AddAttestations(env, spec, eval, ds, attestations).value) ==
      Summarize(ds).(attestations := AttestationsOf(ds) + attestations,
                     aggregates := AggregatesOf(ds) + Selected(env, spec, eval.epoch, attestations))
  {
    hide SelectedOne, AddAttestation;
    SummaryParts(ds);
    if attestations != [] {
      var n := |attestations| - 1;
      AttestationsReadBack(env, spec, eval, ds, attestations[..n]);
      AttestationReadBack(
        env, spec, eval, AddAttestations(env, spec, eval, ds, attestations[..n]).value, attestations[n]);
      SummaryParts(AddAttestations(env, spec, eval, ds, attestations[..n]).value);
      assert attestations == attestations[..n] + [attestations[n]];
    } else {
      assert AttestationsOf(ds) + attestations == AttestationsOf(ds);
    }
  }

  lemma SummaryParts(ds: seq<DutySpec>)
    ensures Summarize(ds) ==
      Summary(ProposalsOf(ds), AttestationsOf(ds), AggregatesOf(ds), SyncsOf(ds), SyncAggregatesOf(ds))
  {
  }

  // For each subcommittee, in the order of iteration, there is an aggregate exactly when it is selected.
  lemma {:induction false} SyncAggregatesReadBack(env: Env, spec: Spec, eval: Evaluation, ds: seq<DutySpec>,
      c: CommitteeSyncDuty, slot: uint64, subs: seq<nat>)
    requires AddSyncAggregates(env, spec, eval, ds, c, slot, subs).Ok?
    ensures Summarize(AddSyncAggregates(env, spec, eval, ds, c, slot, subs).value) ==
      Summarize(ds).(syncAggregates :=
        SyncAggregatesOf(ds) + SelectedSubcommittees(env, spec, eval.epoch, c, slot, subs))
  {
    hide IsSyncCommitteeAggregator;
    if subs != [] {
      var n := |subs| - 1;
      SyncAggregatesReadBack(env, spec, eval, ds, c, slot, subs[..n]);
      var before := AddSyncAggregates(env, spec, eval, ds, c, slot, subs[..n]).value;
      var aggregate := IsSyncCommitteeAggregator(env, spec, eval.epoch, subs[n], slot, c.validatorIndex).value;
      if aggregate.0 {
        SummarizeMore(before, SyncAggregateSpec(env, spec, eval, |before|, c, slot, aggregate.1, subs[n]));
      }
    }
  }

  // One committee entry at one slot: an aggregate for each selected subcommittee, and none twice.
  ghost predicate IsSyncGroup(env: Env, spec: Spec, epoch: uint64, c: CommitteeSyncDuty, slot: uint64, subs: set<nat>,
      group: seq<SubSelection>)
  {
    && (forall i, j | 0 <= i < j < |group| :: group[i].2 != group[j].2)
    && (forall s: SubSelection :: s in group <==>
          && s.0 == c.validatorIndex && s.1 == slot && s.2 in subs
          && IsSyncCommitteeAggregator(env, spec, epoch, s.2, slot, c.validatorIndex) == Ok((true, s.3)))
  }

  lemma {:induction false} SelectedIsGroup(env: Env, spec: Spec, epoch: uint64, c: CommitteeSyncDuty, slot: uint64,
      order: seq<nat>, subs: set<nat>)
    requires Enumerates(order, subs)
    ensures IsSyncGroup(env, spec, epoch, c, slot, subs, SelectedSubcommittees(env, spec, epoch, c, slot, order))
  {
    if order != [] {
      var n := |order| - 1;
      assert order == order[..n] + [order[n]];
      SelectedIsGroup(env, spec, epoch, c, slot, order[..n], subs - {order[n]});
      var group := SelectedSubcommittees(env, spec, epoch, c, slot, order[..n]);
      assert forall i | 0 <= i < |group| :: group[i] in group;
    }
  }

  // The aggregates of one committee entry over a range of slots, slot by slot.
  ghost predicate AreSlotGroups(env: Env, spec: Spec, epoch: uint64, c: CommitteeSyncDuty, subs: set<nat>,
      first: uint64, last: uint64, list: seq<SubSelection>)
    decreases last
  {
    if last <= first then list == []
    else exists k | 0 <= k <= |list| ::
      && AreSlotGroups(env, spec, epoch, c, subs, first, last - 1, list[..k])
      && IsSyncGroup(env, spec, epoch, c, last - 1, subs, list[k..])
  }

  lemma JoinSlotGroups(env: Env, spec: Spec, epoch: uint64, c: CommitteeSyncDuty, subs: set<nat>,
      first: uint64, last: uint64, list: seq<SubSelection>, group: seq<SubSelection>)
    requires first < last && AreSlotGroups(env, spec, epoch, c, subs, first, last - 1, list)
    requires IsSyncGroup(env, spec, epoch, c, last - 1, subs, group)
    ensures AreSlotGroups(env, spec, epoch, c, subs, first, last, list + group)
  {
    assert (list + group)[..|list|] == list && (list + group)[|list|..] == group;
  }

  // A summary with more sync duties.
  function Plus(s: Summary, syncs: seq<(uint64, uint64)>, groups: seq<SubSelection>): Summary {
    s.(syncs := s.syncs + syncs, syncAggregates := s.syncAggregates + groups)
  }

  lemma PlusPlus(s: Summary, a: seq<(uint64, uint64)>, b: seq<SubSelection>, c: seq<(uint64, uint64)>,
      d: seq<SubSelection>)
    ensures Plus(Plus(s, a, b), c, d) == Plus(s, a + c, b + d)
    ensures Plus(s, [], []) == s
  {
    assert s.syncs + a + c == s.syncs + (a + c);
    assert s.syncAggregates + b + d == s.syncAggregates + (b + d);
    assert s.syncs + [] == s.syncs && s.syncAggregates + [] == s.syncAggregates;
  }

  lemma SyncReadBack(env: Env, spec: Spec, eval: Evaluation, ds: seq<DutySpec>, c: CommitteeSyncDuty, slot: uint64)
    returns (group: seq<SubSelection>)
    requires env.Valid() && AddSync(env, spec, eval, ds, c, slot).Ok?
    ensures Subcommittees(spec, c.indices).Ok?
    ensures IsSyncGroup(env, spec, eval.epoch, c, slot, Subcommittees(spec, c.indices).value, group)
    ensures Summarize(AddSync(env, spec, eval, ds, c, slot).value) ==
      Plus(Summarize(ds), [(c.validatorIndex, slot)], group)
  {
    var d := SyncSpec(env, spec, eval, |ds|, c, slot);
    var subs := Subcommittees(spec, c.indices).value;
    var order := env.order(|ds + [d]|, subs);
    SummarizeMore(ds, d);
    SyncAggregatesReadBack(env, spec, eval, ds + [d], c, slot, order);
    group := SelectedSubcommittees(env, spec, eval.epoch, c, slot, order);
    SelectedIsGroup(env, spec, eval.epoch, c, slot, order, subs);
  }

  lemma {:induction false} SlotsReadBack(env: Env, spec: Spec, eval: Evaluation, ds: seq<DutySpec>,
      c: CommitteeSyncDuty, first: uint64, last: uint64) returns (groups: seq<SubSelection>)
    requires env.Valid() && AddSlots(env, spec, eval, ds, c, first, last).Ok?
    ensures if first < last then
        && Subcommittees(spec, c.indices).Ok?
        && AreSlotGroups(env, spec, eval.epoch, c, Subcommittees(spec, c.indices).value, first, last, groups)
      else groups == []
    ensures Summarize(AddSlots(env, spec, eval, ds, c, first, last).value) ==
      Plus(Summarize(ds), SlotsFor(c, first, last), groups)
    decreases last
  {
    hide Summarize, Plus, IsSyncGroup, Subcommittees, AddSync, Env.Valid;
    if first < last {
      var more := SlotsReadBack(env, spec, eval, ds, c, first, last - 1);
      var before := AddSlots(env, spec, eval, ds, c, first, last - 1).value;
      var group := SyncReadBack(env, spec, eval, before, c, last - 1);
      JoinSlotGroups(env, spec, eval.epoch, c, Subcommittees(spec, c.indices).value, first, last, more, group);
      PlusPlus(Summarize(ds), SlotsFor(c, first, last - 1), more, [(c.validatorIndex, last - 1)], group);
      groups := more + group;
    } else {
      groups := [];
      PlusPlus(Summarize(ds), [], [], [], []);
    }
  }

  // The aggregates of all committee entries, entry by entry.
  ghost predicate AreCommitteeGroups(env: Env, spec: Spec, epoch: uint64, cs: seq<CommitteeSyncDuty>,
      first: uint64, last: uint64, list: seq<SubSelection>)
  {
    if cs == [] || last <= first then list == []
    else exists k | 0 <= k <= |list| ::
      && Subcommittees(spec, cs[|cs| - 1].indices).Ok?
      && AreCommitteeGroups(env, spec, epoch, cs[..|cs| - 1], first, last, list[..k])
      && AreSlotGroups(
           env, spec, epoch, cs[|cs| - 1], Subcommittees(spec, cs[|cs| - 1].indices).value, first, last, list[k..])
  }

  lemma JoinCommitteeGroups(env: Env, spec: Spec, epoch: uint64, cs: seq<CommitteeSyncDuty>,
      first: uint64, last: uint64, list: seq<SubSelection>, group: seq<SubSelection>)
    requires cs != [] && AreCommitteeGroups(env, spec, epoch, cs[..|cs| - 1], first, last, list)
    requires if first < last then
        && Subcommittees(spec, cs[|cs| - 1].indices).Ok?
        && AreSlotGroups(
             env, spec, epoch, cs[|cs| - 1], Subcommittees(spec, cs[|cs| - 1].indices).value, first, last, group)
      else group == []
    ensures AreCommitteeGroups(env, spec, epoch, cs, first, last, list + group)
  {
    assert (list + group)[..|list|] == list && (list + group)[|list|..] == group;
  }

  lemma {:induction false} CommitteesReadBack(env: Env, spec: Spec, eval: Evaluation, ds: seq<DutySpec>,
      cs: seq<CommitteeSyncDuty>) returns (groups: seq<SubSelection>)
    requires env.Valid() && AddCommittees(env, spec, eval, ds, cs).Ok?
    ensures AreCommitteeGroups(
      env, spec, eval.epoch, cs, FirstSlot(spec, eval.epoch), LastSlot(spec, eval.epoch), groups)
    ensures Summarize(AddCommittees(env, spec, eval, ds, cs).value) ==
      Plus(Summarize(ds), SyncGrid(cs, FirstSlot(spec, eval.epoch), LastSlot(spec, eval.epoch)), groups)
  {
    hide Summarize, Plus, AreSlotGroups, Subcommittees, AddSlots, Env.Valid, FirstSlot, LastSlot;
    var first, last := FirstSlot(spec, eval.epoch), LastSlot(spec, eval.epoch);
    if cs != [] {
      var n := |cs| - 1;
      var more := CommitteesReadBack(env, spec, eval, ds, cs[..n]);
      var before := AddCommittees(env, spec, eval, ds, cs[..n]).value;
      var group := SlotsReadBack(env, spec, eval, before, cs[n], first, last);
      groups := more + group;
      JoinCommitteeGroups(env, spec, eval.epoch, cs, first, last, more, group);
      PlusPlus(Summarize(ds), SyncGrid(cs[..n], first, last), more, SlotsFor(cs[n], first, last), group);
    } else {
      groups := [];
      PlusPlus(Summarize(ds), [], [], [], []);
    }
  }

  // What an expansion contains, kind by kind: the proposals and the attestations asked for, one aggregate
  // for each selected attestation, one sync duty for each entry and slot, and the groups of sync aggregates.
  lemma ExpansionReadsBack(env: Env, spec: Spec, eval: Evaluation)
    requires env.Valid() && Expand(env, spec, eval).Ok?
    ensures var summary := Summarize(Expand(env, spec, eval).value);
      && summary.proposals == eval.proposer
      && summary.attestations == eval.attestation
      && summary.aggregates == Selected(env, spec, eval.epoch, eval.attestation)
      && summary.syncs == SyncGrid(eval.committee, FirstSlot(spec, eval.epoch), LastSlot(spec, eval.epoch))
      && AreCommitteeGroups(env, spec, eval.epoch, eval.committee,
           FirstSlot(spec, eval.epoch), LastSlot(spec, eval.epoch), summary.syncAggregates)
  {
    ProposalsReadBack(env, spec, eval, [], eval.proposer);
    var proposals := AddProposals(env, spec, eval, [], eval.proposer);
    AttestationsReadBack(env, spec, eval, proposals, eval.attestation);
    var attestations := AddAttestations(env, spec, eval, proposals, eval.attestation).value;
    hide AreCommitteeGroups, Selected, SyncGrid, AddAttestations, AddCommittees, AddProposals, Env.Valid;
    var groups := CommitteesReadBack(env, spec, eval, attestations, eval.committee);
    assert [] + eval.proposer == eval.proposer;
    assert [] + eval.attestation == eval.attestation;
    assert SyncAggregatesOf([]) + groups == groups;
  }
}
