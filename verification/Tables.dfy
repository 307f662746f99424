/**
 A table of the in-memory database: the records by id, and indexes that map keys to records. Every key of a
 record ends with its id, so no two records have a key in common.
 */
module Tables {
  import opened Types
  import opened Keys

  // How one index finds the id and the keys of a record.
  datatype Schema<!R(!new)> = Schema(idOf: R -> Id, keysOf: R -> seq<Key>)
  {
    ghost predicate Separates() {
      forall r, r', k :: k in keysOf(r) && k in keysOf(r') ==> idOf(r) == idOf(r')
    }
  }

  ghost predicate Filed<R(!new)>(schema: Schema<R>, rows: map<Id, R>) {
    forall id | id in rows :: schema.idOf(rows[id]) == id
  }

  // The index has exactly the keys of the stored records.
  ghost predicate Indexes<R(!new)>(schema: Schema<R>, rows: map<Id, R>, index: map<Key, R>) {
    && (forall id, k | id in rows && k in schema.keysOf(rows[id]) :: k in index && index[k] == rows[id])
    && (forall k | k in index ::
          && schema.idOf(index[k]) in rows && rows[schema.idOf(index[k])] == index[k]
          && k in schema.keysOf(index[k]))
  }

  function AddKeys<R(!new)>(index: map<Key, R>, keys: seq<Key>, r: R): (after: map<Key, R>)
    ensures forall k :: k in after <==> k in index || k in keys
    ensures forall k | k in after :: after[k] == if k in keys then r else index[k]
  {
    if keys == [] then index
    else
      var n := |keys| - 1;
      assert keys == keys[..n] + [keys[n]];
      AddKeys(index, keys[..n], r)[keys[n] := r]
  }

  // An insert drops the keys of the record it replaces and adds those of the new one.
  function Reindex<R(!new)>(schema: Schema<R>, rows: map<Id, R>, index: map<Key, R>, r: R): map<Key, R> {
    var id := schema.idOf(r);
    var kept := if id in rows then index - set k | k in schema.keysOf(rows[id]) else index;
    AddKeys(kept, schema.keysOf(r), r)
  }

  lemma ReindexKeeps<R(!new)>(schema: Schema<R>, rows: map<Id, R>, index: map<Key, R>, r: R)
    requires schema.Separates() && Filed(schema, rows) && Indexes(schema, rows, index)
    ensures Filed(schema, rows[schema.idOf(r) := r])
    ensures Indexes(schema, rows[schema.idOf(r) := r], Reindex(schema, rows, index, r))
  {
    var rows', index', id := rows[schema.idOf(r) := r], Reindex(schema, rows, index, r), schema.idOf(r);
    forall other, k | other in rows' && k in schema.keysOf(rows'[other])
      ensures k in index' && index'[k] == rows'[other]
    {
      if other != id {
        assert k !in schema.keysOf(r);
        assert id in rows ==> k !in schema.keysOf(rows[id]);
      }
    }
    forall k | k in index'
      ensures schema.idOf(index'[k]) in rows' && rows'[schema.idOf(index'[k])] == index'[k] &&
        k in schema.keysOf(index'[k])
    {
      if k !in schema.keysOf(r) {
        assert k in index && index'[k] == index[k];
        assert id in rows ==> k !in schema.keysOf(rows[id]);
      }
    }
  }

  // An index is determined by the records it indexes.
  lemma IndexIsDetermined<R(!new)>(schema: Schema<R>, rows: map<Id, R>, a: map<Key, R>, b: map<Key, R>)
    requires Indexes(schema, rows, a) && Indexes(schema, rows, b)
    ensures a == b
  {
    assert forall k | k in a :: k in b && b[k] == a[k];
    assert forall k | k in b :: k in a;
  }

  // Iterators: the keys selected by a seek, in the order of the index or against it.

  predicate Before(reverse: bool, a: Key, b: Key) {
    if reverse then Below(b, a) else Below(a, b)
  }

  lemma BeforeIsTotal(reverse: bool, a: Key, b: Key)
    ensures a == b || Before(reverse, a, b) || Before(reverse, b, a)
    ensures !(Before(reverse, a, b) && Before(reverse, b, a)) && !Before(reverse, a, a)
  {
    BelowIsTotal(a, b);
  }

  lemma BeforeIsTransitive(reverse: bool, a: Key, b: Key, c: Key)
    requires Before(reverse, a, b) && Before(reverse, b, c)
    ensures Before(reverse, a, c)
  {
    if reverse {
      BelowIsTransitive(c, b, a);
    } else {
      BelowIsTransitive(a, b, c);
    }
  }

  // In the direction of an iterator, a key comes before all the others of a set.
  ghost predicate Leads(reverse: bool, keys: set<Key>, k: Key) {
    k in keys && forall other | other in keys && other != k :: Before(reverse, k, other)
  }

  // The least key of an index among those that a seek selects.
  ghost predicate IsFirst<R(!new)>(index: map<Key, R>, select: Key -> bool, k: Key) {
    && k in index && select(k)
    && forall other | other in index && select(other) && other != k :: Below(k, other)
  }

  lemma FirstIsUnique<R(!new)>(index: map<Key, R>, select: Key -> bool, a: Key, b: Key)
    requires IsFirst(index, select, a) && IsFirst(index, select, b)
    ensures a == b
  {
    BelowIsTotal(a, b);
  }

  method FirstOf(reverse: bool, keys: set<Key>) returns (k: Key)
    requires keys != {}
    ensures Leads(reverse, keys, k)
  {
    k :| k in keys;
    var todo := keys - {k};
    while todo != {}
      invariant todo < keys && Leads(reverse, keys - todo, k)
      decreases todo
    {
      var other: Key :| other in todo;
      BeforeIsTotal(reverse, k, other);
      if Before(reverse, other, k) {
        BeforeRest(reverse, keys - todo, k, other);
        k := other;
      }
      todo := todo - {other};
    }
    assert keys - todo == keys;
  }

  lemma BeforeRest(reverse: bool, keys: set<Key>, k: Key, before: Key)
    requires Leads(reverse, keys, k) && Before(reverse, before, k)
    ensures forall other | other in keys :: Before(reverse, before, other)
  {
    forall other | other in keys ensures Before(reverse, before, other) {
      if other != k {
        BeforeIsTransitive(reverse, before, k, other);
      }
    }
  }

  lemma FirstExists(keys: set<Key>) returns (k: Key)
    requires keys != {}
    ensures Leads(false, keys, k)
    decreases |keys|
  {
    k :| k in keys;
    if keys != {k} {
      var rest := FirstExists(keys - {k});
      BeforeIsTotal(false, k, rest);
      if Before(false, k, rest) {
        BeforeRest(false, keys - {k}, rest, k);
      } else {
        k := rest;
      }
    }
  }

  // What the iterator of a seek returns first.
  method SeekFirst<R(!new)>(index: map<Key, R>, select: Key -> bool) returns (r: Option<R>)
    ensures r == None <==> forall k | k in index :: !select(k)
    ensures r.Some? ==> exists k :: IsFirst(index, select, k) && index[k] == r.value
  {
    var keys := set k | k in index && select(k);
    assert forall k | k in index && select(k) :: k in keys;
    if keys == {} {
      return None;
    }
    var k := FirstOf(false, keys);
    assert IsFirst(index, select, k);
    return Some(index[k]);
  }

  // A list has the records of the selected keys, in order.
  ghost predicate Lists<R(!new)>(index: map<Key, R>, select: Key -> bool, reverse: bool, keys: seq<Key>, list: seq<R>) {
    && |keys| == |list|
    && (forall i | 0 <= i < |keys| :: keys[i] in index && select(keys[i]) && list[i] == index[keys[i]])
    && (forall i, j | 0 <= i < j < |keys| :: Before(reverse, keys[i], keys[j]))
    && (forall k | k in index && select(k) :: k in keys)
  }

  // What an iterator returns altogether.
  method SeekAll<R(!new)>(index: map<Key, R>, select: Key -> bool, reverse: bool)
    returns (list: seq<R>, ghost keys: seq<Key>)
    ensures Lists(index, select, reverse, keys, list)
    ensures forall r | r in list :: exists k :: k in index && select(k) && index[k] == r
    ensures forall k | k in index && select(k) :: index[k] in list
  {
    var todo := set k | k in index && select(k);
    list, keys := [], [];
    while todo != {}
      invariant |keys| == |list| && todo <= set k | k in index && select(k)
      invariant forall i | 0 <= i < |keys| :: keys[i] in index && select(keys[i]) && list[i] == index[keys[i]]
      invariant forall i, j | 0 <= i < j < |keys| :: Before(reverse, keys[i], keys[j])
      invariant forall i, k | 0 <= i < |keys| && k in todo :: Before(reverse, keys[i], k)
      invariant forall k | k in index && select(k) :: k in keys || k in todo
      decreases todo
    {
      var k := FirstOf(reverse, todo);
      list, keys := list + [index[k]], keys + [k];
      todo := todo - {k};
    }
  }
}
