/** The state of the validator: a database, and tables in memory that mirror it. */
module States {
  import opened Types
  import opened Keys
  import opened Tables
  import opened Stores
  import opened Rows
  import opened Slashing

  const MAX_UINT64: uint64 := 0xFFFF_FFFF_FFFF_FFFF

  // The validators with metadata that are active at an epoch.
  predicate ActiveAt(v: Validator, epoch: uint64) {
    v.metadata.Some? && v.metadata.value.activationEpoch <= epoch
  }

  class State {
    // The two buckets of the database.
    var dbDuties: map<Id, Record>
    var dbValidators: map<Id, Validator>

    // The tables in memory.
    var duties: DutyTable
    var validators: ValidatorTable

    ghost predicate Valid()
      reads this
    {
      && DutiesConsistent(duties) && duties.rows == dbDuties
      && ValidatorsConsistent(validators) && validators.rows == dbValidators
    }

    // Opens a database. The tables are the only ones that agree with it: those it was closed with.
    constructor (dbDuties: map<Id, Record>, dbValidators: map<Id, Validator>)
      requires Filed(BLOCKS, dbDuties) && Filed(ACTIVATIONS, dbValidators)
      ensures Valid() && this.dbDuties == dbDuties && this.dbValidators == dbValidators
      ensures forall t | DutiesConsistent(t) && t.rows == dbDuties :: duties == t
      ensures forall t | ValidatorsConsistent(t) && t.rows == dbValidators :: validators == t
    {
      this.dbDuties, this.dbValidators := dbDuties, dbValidators;
      duties, validators := NO_DUTIES, NO_VALIDATORS;
      new;
      ReIndex();
      forall t | DutiesConsistent(t) && t.rows == dbDuties ensures duties == t {
        TablesAreDetermined(duties, t, validators, validators);
      }
      forall t | ValidatorsConsistent(t) && t.rows == dbValidators ensures validators == t {
        TablesAreDetermined(duties, duties, validators, t);
      }
    }

    method ReIndex()
      requires Filed(BLOCKS, dbDuties) && Filed(ACTIVATIONS, dbValidators)
      modifies `duties, `validators
      ensures Valid()
    {
      duties, validators := NO_DUTIES, NO_VALIDATORS;
      ReIndexDuties();
      ReIndexValidators();
    }

    method ReIndexDuties()
      requires Filed(BLOCKS, dbDuties) && duties == NO_DUTIES
      modifies `duties
      ensures DutiesConsistent(duties) && duties.rows == dbDuties
    {
      var ids := dbDuties.Keys;
      while ids != {}
        invariant ids <= dbDuties.Keys && DutiesConsistent(duties)
        invariant forall id :: id in duties.rows <==> id in dbDuties && id !in ids
        invariant forall id | id in duties.rows :: duties.rows[id] == dbDuties[id]
        decreases ids
      {
        var id :| id in ids;
        InsertDutiesKeeps(duties, [dbDuties[id]]);
        assert [dbDuties[id]][..0] == [] && InsertDuties(duties, []) == duties;
        duties := InsertDuty(duties, dbDuties[id]);
        ids := ids - {id};
      }
    }

    method ReIndexValidators()
      requires Filed(ACTIVATIONS, dbValidators) && validators == NO_VALIDATORS
      modifies `validators
      ensures ValidatorsConsistent(validators) && validators.rows == dbValidators
    {
      var ids := dbValidators.Keys;
      while ids != {}
        invariant ids <= dbValidators.Keys && ValidatorsConsistent(validators)
        invariant forall id :: id in validators.rows <==> id in dbValidators && id !in ids
        invariant forall id | id in validators.rows :: validators.rows[id] == dbValidators[id]
        decreases ids
      {
        var id :| id in ids;
        InsertValidatorsKeeps(validators, [dbValidators[id]]);
        assert [dbValidators[id]][..0] == [] && InsertValidators(validators, []) == validators;
        validators := InsertValidator(validators, dbValidators[id]);
        ids := ids - {id};
      }
    }

    // Stores all the duties, or none: an empty id is refused, and the database may fail to commit.
    method UpsertDuties(rs: seq<Record>, commits: bool) returns (ok: bool)
      requires Valid()
      modifies this
      ensures Valid() && validators == old(validators)
      ensures ok <==> commits && forall r | r in rs :: r.spec.id != []
      ensures duties == if ok then InsertDuties(old(duties), rs) else old(duties)
      ensures ok ==> RowsAfter(DutyId, old(duties).rows, rs, duties.rows)
    {
      hide DutiesConsistent, ValidatorsConsistent, RowsAfter, Reindex;
      var mem, db := duties, dbDuties;
      for i := 0 to |rs|
        invariant mem == InsertDuties(duties, rs[..i]) && db == mem.rows
        invariant duties == old(duties) && dbDuties == old(dbDuties) && validators == old(validators)
        invariant dbValidators == old(dbValidators)
        invariant forall r | r in rs[..i] :: r.spec.id != []
      {
        assert rs[..i + 1][..i] == rs[..i];
        if rs[i].spec.id == [] {
          return false;
        }
        mem := InsertDuty(mem, rs[i]);
        db := db[rs[i].spec.id := rs[i]];
      }
      assert rs[..|rs|] == rs;
      if !commits {
        return false;
      }
      InsertDutiesKeeps(duties, rs);
      InsertDutiesStores(duties, rs);
      dbDuties, duties := db, mem;
      return true;
    }

    method UpsertValidators(vs: seq<Validator>, commits: bool) returns (ok: bool)
      requires Valid()
      modifies this
      ensures Valid() && duties == old(duties)
      ensures ok <==> commits && forall v | v in vs :: v.pubKey != []
      ensures validators == if ok then InsertValidators(old(validators), vs) else old(validators)
      ensures ok ==> RowsAfter(PubKey, old(validators).rows, vs, validators.rows)
    {
      hide DutiesConsistent, ValidatorsConsistent, RowsAfter, Reindex;
      var mem, db := validators, dbValidators;
      for i := 0 to |vs|
        invariant mem == InsertValidators(validators, vs[..i]) && db == mem.rows
        invariant validators == old(validators) && dbValidators == old(dbValidators) && duties == old(duties)
        invariant dbDuties == old(dbDuties)
        invariant forall v | v in vs[..i] :: v.pubKey != []
      {
        assert vs[..i + 1][..i] == vs[..i];
        if vs[i].pubKey == [] {
          return false;
        }
        mem := InsertValidator(mem, vs[i]);
        db := db[vs[i].pubKey := vs[i]];
      }
      assert vs[..|vs|] == vs;
      if !commits {
        return false;
      }
      InsertValidatorsKeeps(validators, vs);
      InsertValidatorsStores(validators, vs);
      dbValidators, validators := db, mem;
      return true;
    }

    // The first record at a slot.
    method ProposalAtSlot(valID: uint64, slot: uint64) returns (r: Option<Record>)
      requires Valid()
      ensures forall k | IsFirst(duties.blocks, WithPrefix(BlockKey(valID, slot)), k) :: r == Some(duties.blocks[k])
      ensures r.Some? ==> IsProposal(r.value)
      ensures r.Some? ==> exists k :: IsFirst(duties.blocks, WithPrefix(BlockKey(valID, slot)), k)
    {
      r := SeekFirst(duties.blocks, WithPrefix(BlockKey(valID, slot)));
      if r.Some? {
        ghost var k := TheFirst(duties.blocks, WithPrefix(BlockKey(valID, slot)), r.value);
        RowOfBlockKey(duties, k);
      }
    }

    // The first record from a validator on, which need not be one of that validator.
    method LowestSignedProposal(valID: uint64) returns (r: Option<Record>)
      requires Valid()
      ensures forall k | IsFirst(duties.blocks, From(U64(valID)), k) :: r == Some(duties.blocks[k])
      ensures r.Some? ==> exists k :: IsFirst(duties.blocks, From(U64(valID)), k)
    {
      r := SeekFirst(duties.blocks, From(U64(valID)));
      if r.Some? {
        ghost var k := TheFirst(duties.blocks, From(U64(valID)), r.value);
      }
    }

    method SlashBlockCheck(valID: uint64, slot: uint64, root: seq<byte>) returns (ok: bool)
      requires Valid()
      ensures ok <==> BlockCheck(duties.blocks, valID, slot, root)
    {
      var proposalAtSlot := ProposalAtSlot(valID, slot);
      var lowestProposal := LowestSignedProposal(valID);
      hide DutiesConsistent, ValidatorsConsistent, IsFirst;
      if proposalAtSlot.Some? {
        if proposalAtSlot.value.result.value.root != root {
          return false;
        }
      }
      if lowestProposal.Some? {
        if lowestProposal.value.spec.slot >= slot {
          return false;
        }
      }
      return true;
    }

    method SlashAttestCheck(valID: uint64, source: uint64, target: uint64) returns (ok: bool)
      requires Valid()
      ensures ok <==> AttestCheck(duties.attestations, valID, source, target)
    {
      hide DutiesConsistent, ValidatorsConsistent, U64, BigEndian, Kind, From;
      var fromSource, fromTarget := From(U64(valID) + Kind(false)), From(U64(valID) + Kind(true));
      var lowestSource := SeekFirst(duties.attestations, fromSource);
      var lowestTarget := SeekFirst(duties.attestations, fromTarget);
      if lowestSource.Some? {
        ghost var k := TheFirst(duties.attestations, fromSource, lowestSource.value);
        ghost var kind := RowOfAttestKey(duties, k);
        if source < EpochOf(lowestSource.value, false) {
          return false;
        }
      }
      if lowestTarget.Some? {
        ghost var k := TheFirst(duties.attestations, fromTarget, lowestTarget.value);
        ghost var kind := RowOfAttestKey(duties, k);
        if target <= EpochOf(lowestTarget.value, true) {
          return false;
        }
      }
      return true;
    }

    // A validator with the given index, if there is one.
    method GetValidatorByIndex(index: uint64) returns (r: Option<Validator>)
      requires Valid()
      ensures r.Some? ==> r.value.pubKey in validators.rows && validators.rows[r.value.pubKey] == r.value
      ensures r.Some? ==> r.value.metadata.Some? && r.value.metadata.value.index == index
      ensures r == None ==> forall id | id in validators.rows && validators.rows[id].metadata.Some? ::
        validators.rows[id].metadata.value.index != index
    {
      r := SeekFirst(validators.indices, WithPrefix(U64(index)));
      forall v: Validator | v.pubKey in validators.rows && validators.rows[v.pubKey] == v && v.metadata.Some?
        ensures var k := WithId(U64(v.metadata.value.index), v.pubKey);
          && k in validators.indices && validators.indices[k] == v
          && (U64(index) <= k <==> v.metadata.value.index == index)
      {
        assert WithId(U64(v.metadata.value.index), v.pubKey) in INDICES.keysOf(v);
        SeekNumber(v.metadata.value.index, index, Terminated(v.pubKey));
      }
      if r == None {
        forall id | id in validators.rows && validators.rows[id].metadata.Some?
          ensures validators.rows[id].metadata.value.index != index
        {
          assert ACTIVATIONS.idOf(validators.rows[id]) == id;
          assert !WithPrefix(U64(index))(WithId(U64(validators.rows[id].metadata.value.index), id));
        }
      } else {
        ghost var k := TheFirst(validators.indices, WithPrefix(U64(index)), r.value);
        assert k in INDICES.keysOf(validators.indices[k]);
      }
    }

    // The validators active at an epoch, each once. At the last epoch the bound wraps around to zero, and
    // there are none.
    method GetValidatorsActiveAt(epoch: uint64) returns (result: seq<Validator>)
      requires Valid()
      ensures epoch < MAX_UINT64 ==> forall v: Validator :: v in result <==>
        v.pubKey in validators.rows && validators.rows[v.pubKey] == v && ActiveAt(v, epoch)
      ensures forall i, j | 0 <= i < j < |result| :: result[i].pubKey != result[j].pubKey
      ensures epoch == MAX_UINT64 ==> result == []
    {
      hide ValidatorsConsistent, DutiesConsistent, Lists, ActiveAt, UpTo, WithPrefix, U64, BigEndian;
      ghost var keys: seq<Key>;
      if epoch == 0 {
        result, keys := SeekAll(validators.activations, WithPrefix(U64(0)), false);
        ListedFromZero(validators, keys, result);
      } else {
        var next: uint64 := (epoch + 1) % 0x1_0000_0000_0000_0000;
        result, keys := SeekAll(validators.activations, UpTo(U64(next)), true);
        if epoch < MAX_UINT64 {
          ListedUpTo(validators, epoch, keys, result);
        } else {
          NothingUpToZero(validators, keys, result);
        }
      }
    }
  }

  function UpTo(bound: Key): Key -> bool {
    k => !Below(bound, k)
  }

  lemma TheFirst<R(!new)>(index: map<Key, R>, select: Key -> bool, r: R) returns (k: Key)
    requires exists k :: IsFirst(index, select, k) && index[k] == r
    ensures IsFirst(index, select, k) && index[k] == r
    ensures forall other | IsFirst(index, select, other) :: other == k
  {
    k :| IsFirst(index, select, k) && index[k] == r;
    forall other | IsFirst(index, select, other) ensures other == k {
      FirstIsUnique(index, select, other, k);
    }
  }

  // Both branches of the query select the keys of the validators that are active: the seek at the next
  // epoch leaves that epoch out because every key goes on after the number.
  lemma ActiveKeys(v: Validator, epoch: uint64)
    requires v.metadata.Some?
    ensures var k := WithId(U64(v.metadata.value.activationEpoch), v.pubKey);
      && (WithPrefix(U64(0))(k) <==> ActiveAt(v, 0))
      && (epoch < MAX_UINT64 ==> (UpTo(U64(epoch + 1))(k) <==> ActiveAt(v, epoch)))
      && !UpTo(U64(0))(k)
  {
    var e := v.metadata.value.activationEpoch;
    SeekNumber(e, 0, Terminated(v.pubKey));
    BoundBelow(0, e, Terminated(v.pubKey));
    if epoch < MAX_UINT64 {
      BoundBelow(epoch + 1, e, Terminated(v.pubKey));
    }
  }

  lemma BoundBelow(bound: uint64, n: uint64, rest: Key)
    requires rest != []
    ensures Below(U64(bound), U64(n) + rest) <==> bound <= n
  {
    assert U64(bound) == U64(bound) + [];
    BelowByParts(U64(bound), U64(n), [], rest);
    U64Order(bound, n);
  }

  lemma ListedAreActive(t: ValidatorTable, select: Key -> bool, epoch: uint64, reverse: bool, keys: seq<Key>,
      list: seq<Validator>)
    requires ValidatorsConsistent(t) && Lists(t.activations, select, reverse, keys, list)
    requires forall v: Validator | v.metadata.Some? ::
      select(WithId(U64(v.metadata.value.activationEpoch), v.pubKey)) <==> ActiveAt(v, epoch)
    ensures forall v: Validator :: v in list <==> v.pubKey in t.rows && t.rows[v.pubKey] == v && ActiveAt(v, epoch)
    ensures forall i, j | 0 <= i < j < |list| :: list[i].pubKey != list[j].pubKey
  {
    forall i | 0 <= i < |list|
      ensures list[i].metadata.Some? && keys[i] == WithId(U64(list[i].metadata.value.activationEpoch), list[i].pubKey)
      ensures list[i].pubKey in t.rows && t.rows[list[i].pubKey] == list[i]
    {
      assert keys[i] in ACTIVATIONS.keysOf(t.activations[keys[i]]);
    }
    forall v: Validator | v.pubKey in t.rows && t.rows[v.pubKey] == v && ActiveAt(v, epoch) ensures v in list {
      var k := WithId(U64(v.metadata.value.activationEpoch), v.pubKey);
      assert k in ACTIVATIONS.keysOf(v);
      assert k in keys;
    }
    forall i, j | 0 <= i < j < |list| ensures list[i].pubKey != list[j].pubKey {
      BeforeIsTotal(reverse, keys[i], keys[j]);
    }
  }

  lemma ListedFromZero(t: ValidatorTable, keys: seq<Key>, list: seq<Validator>)
    requires ValidatorsConsistent(t) && Lists(t.activations, WithPrefix(U64(0)), false, keys, list)
    ensures forall v: Validator :: v in list <==> v.pubKey in t.rows && t.rows[v.pubKey] == v && ActiveAt(v, 0)
    ensures forall i, j | 0 <= i < j < |list| :: list[i].pubKey != list[j].pubKey
  {
    forall v: Validator | v.metadata.Some?
      ensures WithPrefix(U64(0))(WithId(U64(v.metadata.value.activationEpoch), v.pubKey)) <==> ActiveAt(v, 0)
    {
      ActiveKeys(v, 0);
    }
    ListedAreActive(t, WithPrefix(U64(0)), 0, false, keys, list);
  }

  lemma ListedUpTo(t: ValidatorTable, epoch: uint64, keys: seq<Key>, list: seq<Validator>)
    requires epoch < MAX_UINT64
    requires ValidatorsConsistent(t) && Lists(t.activations, UpTo(U64(epoch + 1)), true, keys, list)
    ensures forall v: Validator :: v in list <==> v.pubKey in t.rows && t.rows[v.pubKey] == v && ActiveAt(v, epoch)
    ensures forall i, j | 0 <= i < j < |list| :: list[i].pubKey != list[j].pubKey
  {
    forall v: Validator | v.metadata.Some?
      ensures UpTo(U64(epoch + 1))(WithId(U64(v.metadata.value.activationEpoch), v.pubKey)) <==> ActiveAt(v, epoch)
    {
      ActiveKeys(v, epoch);
    }
    ListedAreActive(t, UpTo(U64(epoch + 1)), epoch, true, keys, list);
  }

  lemma NothingUpToZero(t: ValidatorTable, keys: seq<Key>, list: seq<Validator>)
    requires ValidatorsConsistent(t) && Lists(t.activations, UpTo(U64(0)), true, keys, list)
    ensures list == []
  {
    if list != [] {
      var v := t.activations[keys[0]];
      assert keys[0] in ACTIVATIONS.keysOf(v);
      ActiveKeys(v, 0);
    }
  }
}
