/** The store: its tables, how duties and validators are stored, and the queries on the indexes. */
module Stores {
  import opened Types
  import opened Duties
  import opened Keys
  import opened Tables
  import opened Rows

  // A stored duty.
  datatype DutyRecord = DutyRecord(spec: DutySpec, result: Option<DutyResult>)

  datatype Metadata = Metadata(index: uint64, activationEpoch: uint64)

  datatype Validator = Validator(pubKey: Id, privKey: seq<byte>, metadata: Option<Metadata>)

  // A result is of the kind of the job; otherwise indexing the record panics.
  type Record = r: DutyRecord | r.result.Some? ==> ResultFits(r.spec.job, r.result.value)
    witness DutyRecord(DutySpec([], 0, 0, 0, BlockProposal, 0, []), None)

  predicate IsProposal(r: Record) {
    r.spec.job.BlockProposal? && r.result.Some?
  }

  predicate IsAttestation(r: Record) {
    r.spec.job.Attestation? && r.result.Some?
  }

  function EpochOf(r: Record, target: bool): uint64
    requires IsAttestation(r)
  {
    if target then r.result.value.target.epoch else r.result.value.source.epoch
  }

  function BlockIndexKey(r: Record): Key {
    WithId(BlockKey(r.spec.validatorIndex, r.spec.slot), r.spec.id)
  }

  function AttestIndexKey(r: Record, target: bool): Key
    requires IsAttestation(r)
  {
    WithId(CheckpointKey(r.spec.validatorIndex, target, EpochOf(r, target)), r.spec.id)
  }

  function BlockKeysOf(r: Record): seq<Key> {
    if IsProposal(r) then [BlockIndexKey(r)] else []
  }

  function AttestKeysOf(r: Record): seq<Key> {
    if IsAttestation(r) then [AttestIndexKey(r, false), AttestIndexKey(r, true)] else []
  }

  function DutyId(r: Record): Id {
    r.spec.id
  }

  function PubKey(v: Validator): Id {
    v.pubKey
  }

  function ActivationKeysOf(v: Validator): seq<Key> {
    if v.metadata == None then [] else [WithId(U64(v.metadata.value.activationEpoch), v.pubKey)]
  }

  function IndexKeysOf(v: Validator): seq<Key> {
    if v.metadata == None then [] else [WithId(U64(v.metadata.value.index), v.pubKey)]
  }

  const BLOCKS: Schema<Record> := Schema(DutyId, BlockKeysOf)
  const ATTESTATIONS: Schema<Record> := Schema(DutyId, AttestKeysOf)
  const ACTIVATIONS: Schema<Validator> := Schema(PubKey, ActivationKeysOf)
  const INDICES: Schema<Validator> := Schema(PubKey, IndexKeysOf)

  lemma NumberedKeysDiffer(n: uint64, id: Id, n': uint64, id': Id)
    ensures WithId(U64(n), id) == WithId(U64(n'), id') <==> n == n' && id == id'
  {
    BelowByParts(U64(n), U64(n'), Terminated(id), Terminated(id'));
    U64Order(n, n');
    TerminatedEqual(id, id');
  }

  // The keys of each index tell records apart.
  lemma SchemasSeparate()
    ensures BLOCKS.Separates() && ATTESTATIONS.Separates() && ACTIVATIONS.Separates() && INDICES.Separates()
  {
    forall r, r', k | k in BlockKeysOf(r) && k in BlockKeysOf(r') ensures DutyId(r) == DutyId(r') {
      BlockKeyOrder(r.spec.validatorIndex, r.spec.slot, r.spec.id, r'.spec.validatorIndex, r'.spec.slot, r'.spec.id);
    }
    forall r, r', k | k in AttestKeysOf(r) && k in AttestKeysOf(r') ensures DutyId(r) == DutyId(r') {
      AttestKeysDiffer(r, r', k);
    }
    forall v, v', k | k in ActivationKeysOf(v) && k in ActivationKeysOf(v') ensures PubKey(v) == PubKey(v') {
      NumberedKeysDiffer(v.metadata.value.activationEpoch, v.pubKey, v'.metadata.value.activationEpoch, v'.pubKey);
    }
    forall v, v', k | k in IndexKeysOf(v) && k in IndexKeysOf(v') ensures PubKey(v) == PubKey(v') {
      NumberedKeysDiffer(v.metadata.value.index, v.pubKey, v'.metadata.value.index, v'.pubKey);
    }
  }

  lemma AttestKeysDiffer(r: Record, r': Record, k: Key)
    requires k in AttestKeysOf(r) && k in AttestKeysOf(r')
    ensures r.spec.id == r'.spec.id
  {
    var t, t' := k == AttestIndexKey(r, true), k == AttestIndexKey(r', true);
    CheckpointKeyOrder(r.spec.validatorIndex, t, EpochOf(r, t), r.spec.id,
                       r'.spec.validatorIndex, t', EpochOf(r', t'), r'.spec.id);
  }

  datatype DutyTable = DutyTable(rows: map<Id, Record>, blocks: map<Key, Record>, attestations: map<Key, Record>)

  datatype ValidatorTable = ValidatorTable(
    rows: map<Id, Validator>, activations: map<Key, Validator>, indices: map<Key, Validator>)

  const NO_DUTIES := DutyTable(map[], map[], map[])
  const NO_VALIDATORS := ValidatorTable(map[], map[], map[])

  function InsertDuty(t: DutyTable, r: Record): DutyTable {
    DutyTable(t.rows[r.spec.id := r], Reindex(BLOCKS, t.rows, t.blocks, r),
      Reindex(ATTESTATIONS, t.rows, t.attestations, r))
  }

  function InsertValidator(t: ValidatorTable, v: Validator): ValidatorTable {
    ValidatorTable(
      t.rows[v.pubKey := v], Reindex(ACTIVATIONS, t.rows, t.activations, v), Reindex(INDICES, t.rows, t.indices, v))
  }

  function InsertDuties(t: DutyTable, rs: seq<Record>): DutyTable {
    if rs == [] then t else InsertDuty(InsertDuties(t, rs[..|rs| - 1]), rs[|rs| - 1])
  }

  function InsertValidators(t: ValidatorTable, vs: seq<Validator>): ValidatorTable {
    if vs == [] then t else InsertValidator(InsertValidators(t, vs[..|vs| - 1]), vs[|vs| - 1])
  }

  // The rows of a table after several inserts.

  lemma {:induction false} InsertDutiesStores(t: DutyTable, rs: seq<Record>)
    ensures RowsAfter(DutyId, t.rows, rs, InsertDuties(t, rs).rows)
  {
    if rs == [] {
      NothingStored(DutyId, t.rows);
    } else {
      var n := |rs| - 1;
      InsertDutiesStores(t, rs[..n]);
      OneMoreStored(DutyId, t.rows, rs[..n], rs[n], InsertDuties(t, rs[..n]).rows);
      assert rs[..n] + [rs[n]] == rs;
    }
  }

  lemma {:induction false} InsertValidatorsStores(t: ValidatorTable, vs: seq<Validator>)
    ensures RowsAfter(PubKey, t.rows, vs, InsertValidators(t, vs).rows)
  {
    if vs == [] {
      NothingStored(PubKey, t.rows);
    } else {
      var n := |vs| - 1;
      InsertValidatorsStores(t, vs[..n]);
      OneMoreStored(PubKey, t.rows, vs[..n], vs[n], InsertValidators(t, vs[..n]).rows);
      assert vs[..n] + [vs[n]] == vs;
    }
  }

  // The indexes of a table agree with its rows.

  ghost predicate DutiesConsistent(t: DutyTable) {
    Filed(BLOCKS, t.rows) && Indexes(BLOCKS, t.rows, t.blocks) && Indexes(ATTESTATIONS, t.rows, t.attestations)
  }

  ghost predicate ValidatorsConsistent(t: ValidatorTable) {
    Filed(ACTIVATIONS, t.rows) && Indexes(ACTIVATIONS, t.rows, t.activations) && Indexes(INDICES, t.rows, t.indices)
  }

  lemma {:induction false} InsertDutiesKeeps(t: DutyTable, rs: seq<Record>)
    requires DutiesConsistent(t)
    ensures DutiesConsistent(InsertDuties(t, rs))
  {
    if rs != [] {
      var n := |rs| - 1;
      InsertDutiesKeeps(t, rs[..n]);
      var before := InsertDuties(t, rs[..n]);
      SchemasSeparate();
      ReindexKeeps(BLOCKS, before.rows, before.blocks, rs[n]);
      ReindexKeeps(ATTESTATIONS, before.rows, before.attestations, rs[n]);
    }
  }

  lemma {:induction false} InsertValidatorsKeeps(t: ValidatorTable, vs: seq<Validator>)
    requires ValidatorsConsistent(t)
    ensures ValidatorsConsistent(InsertValidators(t, vs))
  {
    if vs != [] {
      var n := |vs| - 1;
      InsertValidatorsKeeps(t, vs[..n]);
      var before := InsertValidators(t, vs[..n]);
      SchemasSeparate();
      ReindexKeeps(ACTIVATIONS, before.rows, before.activations, vs[n]);
      ReindexKeeps(INDICES, before.rows, before.indices, vs[n]);
    }
  }

  // A table is determined by its rows.
  lemma TablesAreDetermined(a: DutyTable, b: DutyTable, c: ValidatorTable, d: ValidatorTable)
    ensures DutiesConsistent(a) && DutiesConsistent(b) && a.rows == b.rows ==> a == b
    ensures ValidatorsConsistent(c) && ValidatorsConsistent(d) && c.rows == d.rows ==> c == d
  {
    if DutiesConsistent(a) && DutiesConsistent(b) && a.rows == b.rows {
      IndexIsDetermined(BLOCKS, a.rows, a.blocks, b.blocks);
      IndexIsDetermined(ATTESTATIONS, a.rows, a.attestations, b.attestations);
    }
    if ValidatorsConsistent(c) && ValidatorsConsistent(d) && c.rows == d.rows {
      IndexIsDetermined(ACTIVATIONS, c.rows, c.activations, d.activations);
      IndexIsDetermined(INDICES, c.rows, c.indices, d.indices);
    }
  }
}
