/** What storing a list of records, one after the other, does to a table: the last record of an id wins. */
module Rows {
  import opened Types

  // No later record has the id of the record at i.
  ghost predicate IsLast<R>(idOf: R -> Id, rs: seq<R>, i: nat)
    requires i < |rs|
  {
    forall j | i < j < |rs| :: idOf(rs[j]) != idOf(rs[i])
  }

  ghost predicate Names<R>(idOf: R -> Id, rs: seq<R>, id: Id) {
    exists i :: 0 <= i < |rs| && idOf(rs[i]) == id
  }

  ghost predicate SameRow<R>(before: map<Id, R>, after: map<Id, R>, id: Id) {
    (id in after <==> id in before) && (id in before ==> after[id] == before[id])
  }

  // The last record of each id is stored, and every other row is as before.
  ghost predicate RowsAfter<R>(idOf: R -> Id, before: map<Id, R>, rs: seq<R>, after: map<Id, R>) {
    && (forall i: nat | i < |rs| && IsLast(idOf, rs, i) :: idOf(rs[i]) in after && after[idOf(rs[i])] == rs[i])
    && (forall id | !Names(idOf, rs, id) :: SameRow(before, after, id))
  }

  lemma NothingStored<R>(idOf: R -> Id, before: map<Id, R>)
    ensures RowsAfter(idOf, before, [], before)
  {
  }

  lemma OneMoreStored<R>(idOf: R -> Id, before: map<Id, R>, rs: seq<R>, r: R, after: map<Id, R>)
    requires RowsAfter(idOf, before, rs, after)
    ensures RowsAfter(idOf, before, rs + [r], after[idOf(r) := r])
  {
    var all, now := rs + [r], after[idOf(r) := r];
    forall i: nat | i < |all| && IsLast(idOf, all, i) ensures idOf(all[i]) in now && now[idOf(all[i])] == all[i] {
      if i < |rs| {
        assert all[|rs|] == r;
        assert forall j | i < j < |rs| :: all[j] == rs[j];
        assert IsLast(idOf, rs, i);
      }
    }
    forall id | !Names(idOf, all, id) ensures SameRow(before, now, id) {
      assert idOf(all[|rs|]) != id;
      assert forall i | 0 <= i < |rs| :: all[i] == rs[i];
      assert !Names(idOf, rs, id);
    }
  }

  lemma {:induction false} LastExists<R>(idOf: R -> Id, rs: seq<R>, i: nat) returns (last: nat)
    requires i < |rs|
    ensures i <= last < |rs| && IsLast(idOf, rs, last) && idOf(rs[last]) == idOf(rs[i])
    decreases |rs| - i
  {
    if j: nat :| i < j < |rs| && idOf(rs[j]) == idOf(rs[i]) {
      last := LastExists(idOf, rs, j);
    } else {
      last := i;
    }
  }

  // This says everything about the new table.
  lemma RowsAreDetermined<R>(idOf: R -> Id, before: map<Id, R>, rs: seq<R>, a: map<Id, R>, b: map<Id, R>)
    requires RowsAfter(idOf, before, rs, a) && RowsAfter(idOf, before, rs, b)
    ensures a == b
  {
    forall id ensures SameRow(a, b, id) {
      if Names(idOf, rs, id) {
        var i: nat :| i < |rs| && idOf(rs[i]) == id;
        var last := LastExists(idOf, rs, i);
      } else {
        assert SameRow(before, a, id) && SameRow(before, b, id);
      }
    }
    assert forall id | id in a :: SameRow(a, b, id);
    assert forall id | id in b :: SameRow(a, b, id);
  }

  // Of records with different ids, each is stored.
  lemma DistinctAreStored<R>(idOf: R -> Id, before: map<Id, R>, rs: seq<R>, after: map<Id, R>, i: nat)
    requires RowsAfter(idOf, before, rs, after) && i < |rs|
    requires forall j, k | 0 <= j < k < |rs| :: idOf(rs[j]) != idOf(rs[k])
    ensures idOf(rs[i]) in after && after[idOf(rs[i])] == rs[i]
  {
    assert IsLast(idOf, rs, i);
  }
}
