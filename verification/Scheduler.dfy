/**
 The scheduler: how the evaluation of an epoch becomes a plan of duties. Generated ids, signatures, hashes
 and the iteration order of a Go map are given by an environment; integer wrap-around is modelled.
 */
module Schedulers {
  import opened Types
  import opened Duties

  const TWO_TO_63: int := 0x8000_0000_0000_0000
  const TWO_TO_64: int := 0x1_0000_0000_0000_0000
  const SECOND: int := 1_000_000_000
  const SYNC_COMMITTEE_SUBNET_COUNT: int := 4
  const TARGET_AGGREGATORS_PER_SYNC_SUBCOMMITTEE: int := 16

  datatype Spec = Spec(
    secondsPerSlot: uint64, slotsPerEpoch: uint64, syncCommitteeSize: uint64,
    targetAggregatorsPerCommittee: uint64, altairForkEpoch: uint64, bellatrixForkEpoch: uint64)

  datatype ProposerDuty = ProposerDuty(slot: uint64, validatorIndex: uint64)

  datatype AttesterDuty = AttesterDuty(
    slot: uint64, validatorIndex: uint64, committeeIndex: uint64, committeeLength: uint64, committeeAtSlot: uint64)

  datatype CommitteeSyncDuty = CommitteeSyncDuty(validatorIndex: uint64, indices: seq<seq<byte>>)

  datatype Evaluation = Evaluation(
    epoch: uint64, attestation: seq<AttesterDuty>, proposer: seq<ProposerDuty>,
    committee: seq<CommitteeSyncDuty>, genesisTime: Time)

  type Signature = seq<byte>

  datatype Env = Env(
    newId: nat -> Id,
    signSlot: (uint64, uint64, uint64) -> Option<Signature>,
    signSubcommittee: (uint64, uint64, uint64, nat) -> Option<Signature>,
    digest: Signature -> uint64,
    order: (nat, set<nat>) -> seq<nat>)
  {
    // A set is iterated over in some order, each element once.
    ghost predicate Valid() {
      forall k, s :: Enumerates(order(k, s), s)
    }
  }

  ghost predicate Enumerates(list: seq<nat>, s: set<nat>) {
    && (forall i, j | 0 <= i < j < |list| :: list[i] != list[j])
    && (forall x :: x in list <==> x in s)
  }

  datatype Error = SignFailed | BadIndex | DivideByZero

  // 64-bit arithmetic.

  function Wrap(x: int): uint64 {
    x % TWO_TO_64
  }

  function ToInt64(x: uint64): int {
    if x < TWO_TO_63 then x else x - TWO_TO_64
  }

  function WrapInt64(x: int): int {
    ToInt64(Wrap(x))
  }

  // Go's division truncates toward zero.
  function TruncDiv(x: int, y: int): int
    requires y > 0
  {
    if x >= 0 then x / y else -((-x) / y)
  }

  // Times.

  function AtSlot(spec: Spec, genesis: Time, slot: uint64): Time {
    genesis + WrapInt64(ToInt64(Wrap(slot * spec.secondsPerSlot)) * SECOND)
  }

  function SlotDuration(spec: Spec): int {
    WrapInt64(ToInt64(spec.secondsPerSlot) * SECOND)
  }

  function FirstDelay(spec: Spec): int {
    TruncDiv(SlotDuration(spec), 3)
  }

  function AggregationDelay(spec: Spec): int {
    TruncDiv(WrapInt64(SlotDuration(spec) * 2), 3)
  }

  // Who aggregates.

  function IsAttestatorAggregate(env: Env, spec: Spec, epoch: uint64, committeeSize: uint64, slot: uint64,
      account: uint64)
    : Result<(bool, Signature), Error>
  {
    if spec.targetAggregatorsPerCommittee == 0 then Err(DivideByZero)
    else
      var quotient := committeeSize / spec.targetAggregatorsPerCommittee;
      var modulo := if quotient == 0 then 1 else quotient;
      match env.signSlot(epoch, account, slot)
      case None => Err(SignFailed)
      case Some(signature) => Ok((env.digest(signature) % modulo == 0, signature))
  }

  function IsSyncCommitteeAggregator(env: Env, spec: Spec, epoch: uint64, subcommittee: nat, slot: uint64,
      account: uint64)
    : Result<(bool, Signature), Error>
  {
    var quotient := spec.syncCommitteeSize / SYNC_COMMITTEE_SUBNET_COUNT / TARGET_AGGREGATORS_PER_SYNC_SUBCOMMITTEE;
    var modulo := if quotient < 1 then 1 else quotient;
    match env.signSubcommittee(epoch, account, slot, subcommittee)
    case None => Err(SignFailed)
    case Some(signature) => Ok((env.digest(signature) % modulo == 0, signature))
  }

  // Parsing of decimal 32-bit indices.

  predicate IsDigit(b: byte) {
    48 <= b <= 57
  }

  function Decimal(s: seq<byte>): nat {
    if s == [] then 0
    else 10 * Decimal(s[..|s| - 1]) + if IsDigit(s[|s| - 1]) then s[|s| - 1] as int - 48 else 0
  }

  function ParseUint32(s: seq<byte>): Option<nat> {
    if s != [] && (forall b | b in s :: IsDigit(b)) && Decimal(s) < 0x1_0000_0000 then Some(Decimal(s)) else None
  }

  function SubcommitteeSize(spec: Spec): nat {
    spec.syncCommitteeSize / SYNC_COMMITTEE_SUBNET_COUNT
  }

  function SubcommitteeOf(index: Option<nat>, size: nat): nat
    requires index.Some? && size != 0
  {
    index.value / size
  }

  // The subcommittees of a list of indices.
  function Subcommittees(spec: Spec, indices: seq<seq<byte>>): Result<set<nat>, Error> {
    if exists i :: 0 <= i < |indices| && ParseUint32(indices[i]) == None then Err(BadIndex)
    else if indices == [] then Ok({})
    else if SubcommitteeSize(spec) == 0 then Err(DivideByZero)
    else Ok(set i | 0 <= i < |indices| :: SubcommitteeOf(ParseUint32(indices[i]), SubcommitteeSize(spec)))
  }

  // The duties, as they are created. The id of each is the next one generated.

  function ProposalSpec(env: Env, spec: Spec, eval: Evaluation, k: nat, p: ProposerDuty): DutySpec {
    DutySpec(env.newId(k), p.slot, eval.epoch, AtSlot(spec, eval.genesisTime, p.slot), BlockProposal,
      p.validatorIndex, [])
  }

  function AttestationSpec(env: Env, spec: Spec, eval: Evaluation, k: nat, a: AttesterDuty): DutySpec {
    DutySpec(env.newId(k), a.slot, eval.epoch, AtSlot(spec, eval.genesisTime, a.slot) + FirstDelay(spec),
             Attestation(a.committeeIndex, a.committeeLength, a.committeeAtSlot), a.validatorIndex, [])
  }

  function AggregateSpec(env: Env, spec: Spec, eval: Evaluation, k: nat, a: AttesterDuty, proof: Signature,
      dep: Id): DutySpec
  {
    DutySpec(env.newId(k), a.slot, eval.epoch, AtSlot(spec, eval.genesisTime, a.slot) + AggregationDelay(spec),
             AttestationAggregate(proof), a.validatorIndex, [dep])
  }

  function SyncSpec(env: Env, spec: Spec, eval: Evaluation, k: nat, c: CommitteeSyncDuty, slot: uint64): DutySpec {
    DutySpec(env.newId(k), slot, eval.epoch, AtSlot(spec, eval.genesisTime, slot) + FirstDelay(spec),
             SyncCommittee, c.validatorIndex, [])
  }

  function SyncAggregateSpec(env: Env, spec: Spec, eval: Evaluation, k: nat, c: CommitteeSyncDuty, slot: uint64,
      proof: Signature, sub: nat): DutySpec
  {
    DutySpec(env.newId(k), slot, eval.epoch, AtSlot(spec, eval.genesisTime, slot) + AggregationDelay(spec),
             SyncCommitteeAggregate(proof, sub), c.validatorIndex, [])
  }

  // The expansion of an evaluation, one loop at a time.

  type Expansion = Result<seq<DutySpec>, Error>

  function AddProposals(env: Env, spec: Spec, eval: Evaluation, ds: seq<DutySpec>,
      ps: seq<ProposerDuty>): seq<DutySpec>
  {
    if ps == [] then ds
    else
      var before := AddProposals(env, spec, eval, ds, ps[..|ps| - 1]);
      before + [ProposalSpec(env, spec, eval, |before|, ps[|ps| - 1])]
  }

  function AddAttestation(env: Env, spec: Spec, eval: Evaluation, ds: seq<DutySpec>, a: AttesterDuty): Expansion {
    var k := |ds|;
    var attestation := AttestationSpec(env, spec, eval, k, a);
    match IsAttestatorAggregate(env, spec, eval.epoch, a.committeeLength, a.slot, a.validatorIndex)
    case Err(error) => Err(error)
    case Ok((false, _)) => Ok(ds + [attestation])
    case Ok((true, proof)) =>
      Ok(ds + [attestation, AggregateSpec(env, spec, eval, k + 1, a, proof, attestation.id)])
  }

  function AddAttestations(env: Env, spec: Spec, eval: Evaluation, ds: seq<DutySpec>,
      attestations: seq<AttesterDuty>): Expansion
  {
    if attestations == [] then Ok(ds)
    else
      match AddAttestations(env, spec, eval, ds, attestations[..|attestations| - 1])
      case Err(error) => Err(error)
      case Ok(before) => AddAttestation(env, spec, eval, before, attestations[|attestations| - 1])
  }

  function AddSyncAggregates(env: Env, spec: Spec, eval: Evaluation, ds: seq<DutySpec>, c: CommitteeSyncDuty,
      slot: uint64, subs: seq<nat>): Expansion
  {
    if subs == [] then Ok(ds)
    else
      var sub := subs[|subs| - 1];
      match AddSyncAggregates(env, spec, eval, ds, c, slot, subs[..|subs| - 1])
      case Err(error) => Err(error)
      case Ok(before) =>
        match IsSyncCommitteeAggregator(env, spec, eval.epoch, sub, slot, c.validatorIndex)
        case Err(error) => Err(error)
        case Ok((false, _)) => Ok(before)
        case Ok((true, proof)) => Ok(before + [SyncAggregateSpec(env, spec, eval, |before|, c, slot, proof, sub)])
  }

  function AddSync(env: Env, spec: Spec, eval: Evaluation, ds: seq<DutySpec>, c: CommitteeSyncDuty,
      slot: uint64): Expansion
  {
    var more := ds + [SyncSpec(env, spec, eval, |ds|, c, slot)];
    match Subcommittees(spec, c.indices)
    case Err(error) => Err(error)
    case Ok(subs) => AddSyncAggregates(env, spec, eval, more, c, slot, env.order(|more|, subs))
  }

  // For the slots from first up to, and not including, last.
  function AddSlots(env: Env, spec: Spec, eval: Evaluation, ds: seq<DutySpec>, c: CommitteeSyncDuty, first: uint64,
      last: uint64)
    : Expansion
    decreases last
  {
    if last <= first then Ok(ds)
    else
      match AddSlots(env, spec, eval, ds, c, first, last - 1)
      case Err(error) => Err(error)
      case Ok(before) => AddSync(env, spec, eval, before, c, last - 1)
  }

  function FirstSlot(spec: Spec, epoch: uint64): uint64 {
    Wrap(epoch * spec.slotsPerEpoch)
  }

  function LastSlot(spec: Spec, epoch: uint64): uint64 {
    Wrap(FirstSlot(spec, epoch) + spec.slotsPerEpoch)
  }

  function AddCommittees(env: Env, spec: Spec, eval: Evaluation, ds: seq<DutySpec>,
      cs: seq<CommitteeSyncDuty>): Expansion
  {
    if cs == [] then Ok(ds)
    else
      match AddCommittees(env, spec, eval, ds, cs[..|cs| - 1])
      case Err(error) => Err(error)
      case Ok(before) =>
        AddSlots(env, spec, eval, before, cs[|cs| - 1], FirstSlot(spec, eval.epoch), LastSlot(spec, eval.epoch))
  }

  // All duties of an epoch, before cleaning.
  function Expand(env: Env, spec: Spec, eval: Evaluation): Expansion {
    match AddAttestations(env, spec, eval, AddProposals(env, spec, eval, [], eval.proposer), eval.attestation)
    case Err(error) => Err(error)
    case Ok(before) => AddCommittees(env, spec, eval, before, eval.committee)
  }

  // The duties that are still to come.
  function Clean(ds: seq<DutySpec>, now: Time): seq<DutySpec> {
    if ds == [] then []
    else
      var last := ds[|ds| - 1];
      Clean(ds[..|ds| - 1], now) + if last.activeTime > now then [last] else []
  }

  function ForkAt(spec: Spec, epoch: uint64): Fork {
    if spec.bellatrixForkEpoch <= epoch then Bellatrix
    else if spec.altairForkEpoch <= epoch then Altair
    else Phase0
  }

  function Specs(ds: seq<Duty>): (specs: seq<DutySpec>)
    ensures |specs| == |ds|
  {
    seq(|ds|, i requires 0 <= i < |ds| => ds[i].spec)
  }

  lemma SpecsOfMore(ds: seq<Duty>, d: Duty)
    ensures Specs(ds + [d]) == Specs(ds) + [d.spec]
  {
  }

  class Scheduler {
    const env: Env
    const config: Spec
    var eval: Option<Evaluation>
    var duties: seq<Duty>

    constructor (env: Env, config: Spec)
      ensures this.env == env && this.config == config
    {
      this.env, this.config, eval, duties := env, config, None, [];
    }

    // Handed the current time, Process returns the plan, or an error.
    method Process(eval: Evaluation, now: Time) returns (r: Result<seq<Duty>, Error>)
      modifies this
      ensures this.eval == Some(eval)
      ensures Expand(env, config, eval).Err? ==> r == Err(Expand(env, config, eval).error) && duties == old(duties)
      ensures Expand(env, config, eval).Ok? ==>
        && r == Ok(duties)
        && Specs(duties) == Clean(Expand(env, config, eval).value, now)
        && forall d | d in duties ::
            fresh(d) && d.fork == ForkAt(config, eval.epoch) && d.state == PENDING && d.result == None
    {
      this.eval := Some(eval);
      var ds := ProcessProposals(eval);
      var attestations := ProcessAttestations(eval, ds);
      if attestations.Err? {
        return attestations;
      }
      var all := ProcessCommittees(eval, attestations.value);
      if all.Err? {
        return all;
      }
      duties := all.value;
      CleanDuties(now);
      MarkPending(ForkAt(config, eval.epoch));
      return Ok(duties);
    }

    // The last loop of Process.
    method MarkPending(fork: Fork)
      requires forall d | d in duties :: d.result == None
      modifies set d | d in duties
      ensures forall d | d in duties :: d.fork == fork && d.state == PENDING && d.result == None
    {
      for i := 0 to |duties|
        modifies set d | d in duties
        invariant forall j | 0 <= j < i :: duties[j].fork == fork && duties[j].state == PENDING
        invariant forall d | d in duties :: d.result == None
      {
        duties[i].fork := fork;
        duties[i].state := PENDING;
      }
    }

    method ProcessProposals(eval: Evaluation) returns (ds: seq<Duty>)
      ensures Specs(ds) == AddProposals(env, config, eval, [], eval.proposer)
      ensures forall d | d in ds :: fresh(d) && d.result == None
    {
      ds := [];
      for i := 0 to |eval.proposer|
        invariant Specs(ds) == AddProposals(env, config, eval, [], eval.proposer[..i])
        invariant forall d | d in ds :: fresh(d) && d.result == None
      {
        assert eval.proposer[..i + 1][..i] == eval.proposer[..i];
        var d := new Duty(ProposalSpec(env, config, eval, |ds|, eval.proposer[i]));
        SpecsOfMore(ds, d);
        ds := ds + [d];
      }
      assert eval.proposer[..|eval.proposer|] == eval.proposer;
    }

    method ProcessAttestations(eval: Evaluation, before: seq<Duty>) returns (r: Result<seq<Duty>, Error>)
      ensures var e := AddAttestations(env, config, eval, Specs(before), eval.attestation);
        if e.Err? then r == Err(e.error) else r.Ok? && Specs(r.value) == e.value
      ensures r.Ok? ==> forall d | d in r.value :: d in before || (fresh(d) && d.result == None)
    {
      hide AddAttestation;
      var ds := before;
      for i := 0 to |eval.attestation|
        invariant AddAttestations(env, config, eval, Specs(before), eval.attestation[..i]) == Ok(Specs(ds))
        invariant forall d | d in ds :: d in before || (fresh(d) && d.result == None)
      {
        assert eval.attestation[..i + 1][..i] == eval.attestation[..i];
        var more := ProcessAttestation(eval, ds, eval.attestation[i]);
        if more.Err? {
          AttestationErrorsStay(env, config, eval, Specs(before), eval.attestation, i + 1);
          return more;
        }
        ds := more.value;
      }
      assert eval.attestation[..|eval.attestation|] == eval.attestation;
      return Ok(ds);
    }

    // The body of the loop over the attestations.
    method ProcessAttestation(eval: Evaluation, before: seq<Duty>, a: AttesterDuty)
      returns (r: Result<seq<Duty>, Error>)
      ensures var e := AddAttestation(env, config, eval, Specs(before), a);
        if e.Err? then r == Err(e.error) else r.Ok? && Specs(r.value) == e.value
      ensures r.Ok? ==> forall d | d in r.value :: d in before || (fresh(d) && d.result == None)
    {
      var d := new Duty(AttestationSpec(env, config, eval, |before|, a));
      SpecsOfMore(before, d);
      var ds := before + [d];
      var aggregate := IsAttestatorAggregate(env, config, eval.epoch, a.committeeLength, a.slot, a.validatorIndex);
      if aggregate.Err? {
        return Err(aggregate.error);
      }
      if aggregate.value.0 {
        var g := new Duty(AggregateSpec(env, config, eval, |ds|, a, aggregate.value.1, d.spec.id));
        SpecsOfMore(ds, g);
        ds := ds + [g];
      }
      return Ok(ds);
    }

    method ProcessCommittees(eval: Evaluation, before: seq<Duty>) returns (r: Result<seq<Duty>, Error>)
      ensures var e := AddCommittees(env, config, eval, Specs(before), eval.committee);
        if e.Err? then r == Err(e.error) else r.Ok? && Specs(r.value) == e.value
      ensures r.Ok? ==> forall d | d in r.value :: d in before || (fresh(d) && d.result == None)
    {
      var ds := before;
      for i := 0 to |eval.committee|
        invariant AddCommittees(env, config, eval, Specs(before), eval.committee[..i]) == Ok(Specs(ds))
        invariant forall d | d in ds :: d in before || (fresh(d) && d.result == None)
      {
        assert eval.committee[..i + 1][..i] == eval.committee[..i];
        var slots := ProcessSlots(eval, ds, eval.committee[i]);
        if slots.Err? {
          CommitteeErrorsStay(env, config, eval, Specs(before), eval.committee, i + 1);
          return slots;
        }
        ds := slots.value;
      }
      assert eval.committee[..|eval.committee|] == eval.committee;
      return Ok(ds);
    }

    method ProcessSlots(eval: Evaluation, before: seq<Duty>, c: CommitteeSyncDuty) returns (r: Result<seq<Duty>, Error>)
      ensures var e := AddSlots(env, config, eval, Specs(before), c, FirstSlot(config, eval.epoch),
        LastSlot(config, eval.epoch));
        if e.Err? then r == Err(e.error) else r.Ok? && Specs(r.value) == e.value
      ensures r.Ok? ==> forall d | d in r.value :: d in before || (fresh(d) && d.result == None)
    {
      hide AddSync;
      var ds := before;
      var first, last := FirstSlot(config, eval.epoch), LastSlot(config, eval.epoch);
      var slot := first;
      while slot < last
        invariant first <= slot && (slot <= last || slot == first)
        invariant AddSlots(env, config, eval, Specs(before), c, first, slot) == Ok(Specs(ds))
        invariant forall d | d in ds :: d in before || (fresh(d) && d.result == None)
      {
        var sync := ProcessSync(eval, ds, c, slot);
        slot := slot + 1;
        if sync.Err? {
          SlotErrorsStay(env, config, eval, Specs(before), c, first, slot, last);
          return sync;
        }
        ds := sync.value;
      }
      return Ok(ds);
    }

    // The body of the loop over the slots.
    method ProcessSync(eval: Evaluation, before: seq<Duty>, c: CommitteeSyncDuty, slot: uint64)
      returns (r: Result<seq<Duty>, Error>)
      ensures var e := AddSync(env, config, eval, Specs(before), c, slot);
        if e.Err? then r == Err(e.error) else r.Ok? && Specs(r.value) == e.value
      ensures r.Ok? ==> forall d | d in r.value :: d in before || (fresh(d) && d.result == None)
    {
      var d := new Duty(SyncSpec(env, config, eval, |before|, c, slot));
      SpecsOfMore(before, d);
      var first := before + [d];
      var ds := first;
      var subs := Subcommittees(config, c.indices);
      if subs.Err? {
        return Err(subs.error);
      }
      var order := env.order(|ds|, subs.value);
      for i := 0 to |order|
        invariant AddSyncAggregates(env, config, eval, Specs(first), c, slot, order[..i]) == Ok(Specs(ds))
        invariant forall d | d in ds :: d in before || (fresh(d) && d.result == None)
      {
        assert order[..i + 1][..i] == order[..i];
        var aggregate := IsSyncCommitteeAggregator(env, config, eval.epoch, order[i], slot, c.validatorIndex);
        if aggregate.Err? {
          SyncErrorsStay(env, config, eval, Specs(first), c, slot, order, i + 1);
          return Err(aggregate.error);
        }
        if aggregate.value.0 {
          var g := new Duty(SyncAggregateSpec(env, config, eval, |ds|, c, slot, aggregate.value.1, order[i]));
          SpecsOfMore(ds, g);
          ds := ds + [g];
        }
      }
      assert order[..|order|] == order;
      return Ok(ds);
    }

    method CleanDuties(now: Time)
      modifies `duties
      ensures Specs(duties) == Clean(Specs(old(duties)), now)
      ensures forall d | d in duties :: d in old(duties)
    {
      var all := duties;
      var clean: seq<Duty> := [];
      for i := 0 to |all|
        invariant Specs(clean) == Clean(Specs(all)[..i], now)
        invariant forall d | d in clean :: d in all
      {
        assert Specs(all)[..i + 1][..i] == Specs(all)[..i];
        if all[i].spec.activeTime > now {
          SpecsOfMore(clean, all[i]);
          clean := clean + [all[i]];
        }
      }
      assert Specs(all)[..|all|] == Specs(all);
      duties := clean;
    }
  }

  // An error in one round of a loop is the error of the whole loop.

  lemma {:induction false} AttestationErrorsStay(env: Env, spec: Spec, eval: Evaluation, ds: seq<DutySpec>,
      attestations: seq<AttesterDuty>, n: nat)
    requires n <= |attestations| && AddAttestations(env, spec, eval, ds, attestations[..n]).Err?
    ensures AddAttestations(env, spec, eval, ds, attestations) ==
      AddAttestations(env, spec, eval, ds, attestations[..n])
    decreases |attestations|
  {
    if n < |attestations| {
      assert attestations[..|attestations| - 1][..n] == attestations[..n];
      AttestationErrorsStay(env, spec, eval, ds, attestations[..|attestations| - 1], n);
    } else {
      assert attestations[..n] == attestations;
    }
  }

  lemma {:induction false} SyncErrorsStay(env: Env, spec: Spec, eval: Evaluation, ds: seq<DutySpec>,
      c: CommitteeSyncDuty, slot: uint64, subs: seq<nat>, n: nat)
    requires n <= |subs| && AddSyncAggregates(env, spec, eval, ds, c, slot, subs[..n]).Err?
    ensures AddSyncAggregates(env, spec, eval, ds, c, slot, subs) ==
      AddSyncAggregates(env, spec, eval, ds, c, slot, subs[..n])
    decreases |subs|
  {
    if n < |subs| {
      assert subs[..|subs| - 1][..n] == subs[..n];
      SyncErrorsStay(env, spec, eval, ds, c, slot, subs[..|subs| - 1], n);
    } else {
      assert subs[..n] == subs;
    }
  }

  lemma {:induction false} SlotErrorsStay(env: Env, spec: Spec, eval: Evaluation, ds: seq<DutySpec>,
      c: CommitteeSyncDuty, first: uint64, slot: uint64, last: uint64)
    requires first <= slot <= last && AddSlots(env, spec, eval, ds, c, first, slot).Err?
    ensures AddSlots(env, spec, eval, ds, c, first, last) == AddSlots(env, spec, eval, ds, c, first, slot)
    decreases last
  {
    if slot < last {
      SlotErrorsStay(env, spec, eval, ds, c, first, slot, last - 1);
    }
  }

  lemma {:induction false} CommitteeErrorsStay(env: Env, spec: Spec, eval: Evaluation, ds: seq<DutySpec>,
      cs: seq<CommitteeSyncDuty>, n: nat)
    requires n <= |cs| && AddCommittees(env, spec, eval, ds, cs[..n]).Err?
    ensures AddCommittees(env, spec, eval, ds, cs) == AddCommittees(env, spec, eval, ds, cs[..n])
    decreases |cs|
  {
    if n < |cs| {
      assert cs[..|cs| - 1][..n] == cs[..n];
      CommitteeErrorsStay(env, spec, eval, ds, cs[..|cs| - 1], n);
    } else {
      assert cs[..n] == cs;
    }
  }
}
