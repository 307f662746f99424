/**
 The indexed delay heap: a binary heap of nodes that know their own position, next to a map from id
 to node. The sift procedures are those of Go's container/heap.
 */
module DelayHeaps {
  import opened Types
  import opened HeapOrder

  // An object that has an id.
  datatype HeapNode<T> = HeapNode(id: Id, value: T)

  // What a caller can observe of one stored object.
  datatype Entry<T> = Entry(value: T, waitUntil: Time)

  // An id whose entry is due no later than that of any other id.
  ghost predicate IsEarliest<T>(entries: map<Id, Entry<T>>, id: Id) {
    && id in entries
    && forall other | other in entries :: !Earlier(entries[other].waitUntil, entries[id].waitUntil)
  }

  // In times: unless all are zero, an earliest entry is one with the least time that is not zero.
  lemma EarliestInTime<T>(entries: map<Id, Entry<T>>, id: Id)
    ensures IsEarliest(entries, id) <==>
      id in entries && forall other | other in entries && entries[other].waitUntil != ZERO_TIME ::
        ZERO_TIME != entries[id].waitUntil <= entries[other].waitUntil
  {
  }

  // Popping these ids, always an earliest entry, leaves the given entries.
  ghost predicate PopsTo<T>(entries: map<Id, Entry<T>>, popped: seq<Id>, left: map<Id, Entry<T>>)
    decreases |popped|
  {
    if popped == [] then entries == left
    else IsEarliest(entries, popped[0]) && PopsTo(entries - {popped[0]}, popped[1..], left)
  }

  // Popping until none is left yields these ids.
  ghost predicate PopsInOrder<T>(entries: map<Id, Entry<T>>, popped: seq<Id>) {
    PopsTo(entries, popped, map[])
  }

  lemma {:induction false} PopOneMore<T>(
      entries: map<Id, Entry<T>>, popped: seq<Id>, left: map<Id, Entry<T>>, id: Id)
    requires PopsTo(entries, popped, left) && IsEarliest(left, id)
    ensures PopsTo(entries, popped + [id], left - {id})
    decreases |popped|
  {
    if popped == [] {
      assert ([] + [id])[1..] == [];
    } else {
      PopOneMore(entries - {popped[0]}, popped[1..], left, id);
      assert (popped + [id])[1..] == popped[1..] + [id];
    }
  }

  // No id before or at position i comes out later than the one at position j.
  ghost predicate InOrderAt<T>(entries: map<Id, Entry<T>>, popped: seq<Id>, i: nat, j: nat)
    requires i < j < |popped| && popped[i] in entries && popped[j] in entries
  {
    popped[i] != popped[j] && !Earlier(entries[popped[j]].waitUntil, entries[popped[i]].waitUntil)
  }

  lemma {:induction false} PoppedAreStored<T>(entries: map<Id, Entry<T>>, popped: seq<Id>)
    requires PopsInOrder(entries, popped)
    ensures forall id :: id in popped <==> id in entries
    decreases |popped|
  {
    if popped != [] {
      PoppedAreStored(entries - {popped[0]}, popped[1..]);
      assert popped == [popped[0]] + popped[1..];
    }
  }

  // Draining a delay heap sorts it: every id comes out once, and never after a later one.
  lemma {:induction false} DrainingSorts<T>(entries: map<Id, Entry<T>>, popped: seq<Id>, i: nat, j: nat)
    requires PopsInOrder(entries, popped) && i < j < |popped|
    ensures popped[i] in entries && popped[j] in entries && InOrderAt(entries, popped, i, j)
    decreases |popped|
  {
    var rest := entries - {popped[0]};
    assert popped[j] == popped[1..][j - 1];
    PoppedAreStored(entries, popped);
    PoppedAreStored(rest, popped[1..]);
    if i > 0 {
      DrainingSorts(rest, popped[1..], i - 1, j - 1);
    }
  }

  lemma DrainingIsPermutation<T>(entries: map<Id, Entry<T>>, popped: seq<Id>)
    requires PopsInOrder(entries, popped)
    ensures multiset(popped) == multiset(entries.Keys)
  {
    PoppedAreStored(entries, popped);
    forall i, j | 0 <= i < j < |popped| ensures popped[i] != popped[j] {
      DrainingSorts(entries, popped, i, j);
    }
    DistinctMultiset(popped, entries.Keys);
  }

  class DelayHeapNode<T> {
    var node: HeapNode<T>
    var waitUntil: Time
    var index: int

    constructor (node: HeapNode<T>, waitUntil: Time, index: int)
      ensures this.node == node && this.waitUntil == waitUntil && this.index == index
    {
      this.node, this.waitUntil, this.index := node, waitUntil, index;
    }
  }

  class DelayHeap<T> {
    var index: map<Id, DelayHeapNode<T>>
    var heap: seq<DelayHeapNode<T>>

    // The nodes in the heap, their due times by position, and what is stored by id.
    ghost var nodes: set<DelayHeapNode<T>>
    ghost var times: seq<Time>
    ghost var entries: map<Id, Entry<T>>

    // The nodes and the positions correspond one to one, and every node knows its own position.
    ghost predicate Positioned()
      reads `heap, `nodes, `times, nodes`index, nodes`waitUntil
    {
      && |times| == |heap|
      && (forall i | 0 <= i < |heap| :: heap[i] in nodes && heap[i].index == i && heap[i].waitUntil == times[i])
      && (forall n | n in nodes :: 0 <= n.index < |heap| && heap[n.index] == n)
    }

    // The map is a bijection from ids onto the given nodes, and says what is stored.
    ghost predicate IndexedOver(ns: set<DelayHeapNode<T>>)
      reads `index, `entries, ns`node, ns`waitUntil
    {
      && entries.Keys == index.Keys
      && (forall id | id in index :: index[id] in ns && index[id].node.id == id)
      && (forall n | n in ns ::
            && n.node.id in index && index[n.node.id] == n
            && entries[n.node.id] == Entry(n.node.value, n.waitUntil))
    }

    ghost predicate Indexed()
      reads `index, `nodes, `entries, nodes`node, nodes`waitUntil
    {
      IndexedOver(nodes)
    }

    ghost predicate Valid()
      reads this, nodes
    {
      Positioned() && Indexed() && Ordered(times, |heap|)
    }

    constructor ()
      ensures Valid() && nodes == {} && entries == map[]
    {
      index, heap := map[], [];
      nodes, times, entries := {}, [], map[];
    }

    method Less(i: nat, j: nat) returns (r: bool)
      requires Positioned() && i < |heap| && j < |heap|
      ensures r == Earlier(times[i], times[j])
    {
      if heap[i].waitUntil == ZERO_TIME {
        return false;
      }
      if heap[j].waitUntil == ZERO_TIME {
        return true;
      }
      return heap[i].waitUntil < heap[j].waitUntil;
    }

    method Swap(i: nat, j: nat)
      requires i < |heap| && j < |heap| && Positioned()
      modifies `heap, `times, nodes`index
      ensures heap == Swapped(old(heap), i, j) && Positioned()
      ensures times == Swapped(old(times), i, j)
    {
      heap := heap[i := heap[j]][j := heap[i]];
      heap[i].index := i;
      heap[j].index := j;
      times := Swapped(times, i, j);
    }

    // Appends a node; a push follows it with SiftUp.
    method Append(n: DelayHeapNode<T>)
      requires n !in nodes && Positioned()
      modifies `heap, `times, `nodes, n`index
      ensures heap == old(heap) + [n] && nodes == old(nodes) + {n} && Positioned()
      ensures times == old(times) + [n.waitUntil]
    {
      n.index := |heap|;
      heap := heap + [n];
      nodes, times := nodes + {n}, times + [n.waitUntil];
    }

    method RemoveLast() returns (n: DelayHeapNode<T>)
      requires heap != [] && Positioned()
      modifies `heap, `times, `nodes, nodes`index
      ensures heap == old(heap)[..|old(heap)| - 1] && n == old(heap)[|old(heap)| - 1]
      ensures n.index == -1 && nodes == old(nodes) - {n} && Positioned()
      ensures times == old(times)[..|heap|]
    {
      n := heap[|heap| - 1];
      n.index := -1;
      heap := heap[..|heap| - 1];
      nodes, times := nodes - {n}, times[..|heap|];
    }

    // The nodes from position n on are where they were.
    ghost predicate Unmoved(before: seq<DelayHeapNode<T>>, n: nat)
      reads this
    {
      |before| == |heap| && forall k | n <= k < |heap| :: heap[k] == before[k]
    }

    // Only the first n positions matter: container/heap also sifts up while the last position is about to be cut.
    method SiftUp(start: nat, ghost n: nat)
      requires start < n <= |heap| && Positioned() && TooEarlyAt(times, start, n)
      modifies `heap, `times, nodes`index
      ensures Unmoved(old(heap), n) && Positioned() && Ordered(times, n)
    {
      var j: nat := start;
      while true
        invariant j < n <= |heap| && Unmoved(old(heap), n) && Positioned()
        invariant TooEarlyAt(times, j, n)
        decreases j
      {
        var i := if j == 0 then 0 else (j - 1) / 2;
        if i == j {
          break;
        }
        var less := Less(j, i);
        if !less {
          break;
        }
        SiftUpStep(times, j, n);
        Swap(j, i);
        j := i;
      }
      SiftUpEnds(times, j, n);
    }

    // One iteration of the loop of SiftDown; it ends the loop when i stays.
    method SiftDownOnce(i: nat, n: nat) returns (j: nat)
      requires i <= n <= |heap| && Positioned()
      modifies `heap, `times, nodes`index
      ensures j == DownTarget(old(times), i, n) && Positioned()
      ensures if j == i then heap == old(heap) else j < n && heap == Swapped(old(heap), i, j)
      ensures times == if j == i then old(times) else Swapped(old(times), i, j)
    {
      j := 2 * i + 1;
      if j >= n {
        return i;
      }
      var j2 := j + 1;
      if j2 < n {
        var less2 := Less(j2, j);
        if less2 {
          j := j2;
        }
      }
      var less := Less(j, i);
      if !less {
        return i;
      }
      Swap(i, j);
    }

    method SiftDown(start: nat, n: nat) returns (moved: bool)
      requires start <= n <= |heap| && Positioned() && DisturbedAt(times, start, n)
      modifies `heap, `times, nodes`index
      ensures Unmoved(old(heap), n) && Positioned()
      ensures if moved then Ordered(times, n)
              else heap == old(heap) && TooEarlyAt(times, start, n)
    {
      hide SiftingDown, Ordered, TooEarlyAt, DisturbedAt, DownTarget;
      var i: nat := start;
      SiftDownStarts(times, i, n);
      while true
        invariant start <= i <= n <= |heap| && Unmoved(old(heap), n) && Positioned()
        invariant i == start ==> heap == old(heap)
        invariant SiftingDown(times, start, i, n)
        decreases n - i
      {
        SiftDownStep(times, start, i, n);
        var j := SiftDownOnce(i, n);
        if j == i {
          break;
        }
        i := j;
      }
      moved := i > start;
    }

    // Restores the order around a position whose time was replaced: down, and if that moves nothing, up.
    method Resift(i: nat, n: nat)
      requires i < n <= |heap| && Positioned() && DisturbedAt(times, i, n)
      modifies `heap, `times, nodes`index
      ensures Unmoved(old(heap), n) && Positioned() && Ordered(times, n)
    {
      var moved := SiftDown(i, n);
      if !moved {
        SiftUp(i, n);
      }
    }

    method CutLast() returns (n: DelayHeapNode<T>)
      requires heap != [] && Positioned() && Ordered(times, |heap| - 1)
      modifies `heap, `times, `nodes, nodes`index
      ensures n == old(heap[|heap| - 1]) && n.index == -1
      ensures nodes == old(nodes) - {n} && Positioned() && Ordered(times, |heap|)
      ensures index == old(index) && entries == old(entries)
    {
      CuttingKeepsOrder(times, |heap| - 1);
      n := RemoveLast();
    }

    // The procedures Push, Pop, Remove and Fix of container/heap.

    method HeapPush(n: DelayHeapNode<T>)
      requires n !in nodes && Positioned() && Ordered(times, |heap|)
      modifies `heap, `times, `nodes, nodes`index, n`index
      ensures nodes == old(nodes) + {n} && Positioned() && Ordered(times, |heap|)
      ensures index == old(index) && entries == old(entries)
    {
      AppendingDisturbs(times, n.waitUntil);
      Append(n);
      SiftUp(|heap| - 1, |heap|);
    }

    method HeapRemove(i: nat) returns (n: DelayHeapNode<T>)
      requires i < |heap| && Positioned() && Ordered(times, |heap|)
      modifies `heap, `times, `nodes, nodes`index
      ensures n == old(heap[i]) && n.index == -1
      ensures nodes == old(nodes) - {n} && Positioned() && Ordered(times, |heap|)
      ensures index == old(index) && entries == old(entries)
    {
      var last := |heap| - 1;
      if last != i {
        CuttingDisturbs(times, i);
        Swap(i, last);
        Resift(i, last);
      }
      n := CutLast();
    }

    method HeapPop() returns (n: DelayHeapNode<T>)
      requires heap != [] && Positioned() && Ordered(times, |heap|)
      modifies `heap, `times, `nodes, nodes`index
      ensures n == old(heap[0]) && n.index == -1
      ensures nodes == old(nodes) - {n} && Positioned() && Ordered(times, |heap|)
      ensures index == old(index) && entries == old(entries)
    {
      var last := |heap| - 1;
      CuttingDisturbs(times, 0);
      Swap(0, last);
      var moved := SiftDown(0, last);
      n := CutLast();
    }

    method HeapFix(i: nat)
      requires i < |heap| && Positioned() && DisturbedAt(times, i, |heap|)
      modifies `heap, `times, nodes`index
      ensures Positioned() && Ordered(times, |heap|)
      ensures index == old(index) && entries == old(entries)
    {
      Resift(i, |heap|);
    }

    // The operations of the delay heap.

    method Push(dataNode: HeapNode<T>, next: Time) returns (ok: bool)
      requires Valid()
      modifies this, nodes`index
      ensures Valid() && fresh(nodes - old(nodes))
      ensures ok <==> dataNode.id !in old(entries)
      ensures ok ==> entries == old(entries)[dataNode.id := Entry(dataNode.value, next)]
      ensures !ok ==> entries == old(entries) && unchanged(this) && unchanged(nodes)
    {
      if dataNode.id in index {
        return false;
      }
      Insert(dataNode, next);
      return true;
    }

    // The rest of Push, for a new id.
    method Insert(dataNode: HeapNode<T>, next: Time)
      requires Valid() && dataNode.id !in index
      modifies this, nodes`index
      ensures Valid() && fresh(nodes - old(nodes))
      ensures entries == old(entries)[dataNode.id := Entry(dataNode.value, next)]
    {
      hide Ordered;
      var n := new DelayHeapNode(dataNode, next, 0);
      AddToIndex(n);
      HeapPush(n);
    }

    method AddToIndex(n: DelayHeapNode<T>)
      requires Indexed() && n !in nodes && n.node.id !in index
      modifies `index, `entries
      ensures IndexedOver(nodes + {n})
      ensures entries == old(entries)[n.node.id := Entry(n.node.value, n.waitUntil)]
    {
      index := index[n.node.id := n];
      entries := entries[n.node.id := Entry(n.node.value, n.waitUntil)];
    }

    method RemoveFromIndex(n: DelayHeapNode<T>)
      requires IndexedOver(nodes + {n}) && n !in nodes
      modifies `index, `entries
      ensures IndexedOver(nodes) && entries == old(entries) - {n.node.id}
    {
      index := index - {n.node.id};
      entries := entries - {n.node.id};
    }

    method Pop() returns (r: DelayHeapNode?<T>)
      requires Valid()
      modifies this, nodes`index
      ensures Valid() && nodes <= old(nodes)
      ensures r == null <==> old(entries) == map[]
      ensures r == null ==> unchanged(this) && unchanged(nodes)
      ensures r != null ==>
        && IsEarliest(old(entries), r.node.id)
        && old(entries)[r.node.id] == Entry(r.node.value, r.waitUntil)
        && entries == old(entries) - {r.node.id}
    {
      if |heap| == 0 {
        return null;
      }
      RootIsEarliestEntry();
      r := TakeRoot();
    }

    // Removes the node at a position, from the heap and from the map.
    method TakeOut(i: nat) returns (n: DelayHeapNode<T>)
      requires i < |heap| && heap[i] in nodes
      requires Positioned() && IndexedOver(nodes) && Ordered(times, |heap|)
      modifies this, nodes`index
      ensures n == old(heap[i]) && nodes == old(nodes) - {n}
      ensures Positioned() && IndexedOver(nodes) && Ordered(times, |heap|)
      ensures entries == old(entries) - {n.node.id}
    {
      hide *;
      ghost var stored := nodes;
      n := HeapRemove(i);
      assert nodes + {n} == stored;
      RemoveFromIndex(n);
    }

    method TakeRoot() returns (n: DelayHeapNode<T>)
      requires heap != [] && heap[0] in nodes
      requires Positioned() && IndexedOver(nodes) && Ordered(times, |heap|)
      modifies this, nodes`index
      ensures n == old(heap[0]) && nodes == old(nodes) - {n}
      ensures Positioned() && IndexedOver(nodes) && Ordered(times, |heap|)
      ensures entries == old(entries) - {n.node.id}
    {
      hide *;
      ghost var stored := nodes;
      n := HeapPop();
      assert nodes + {n} == stored;
      RemoveFromIndex(n);
    }

    lemma RootIsEarliestEntry()
      requires Valid() && heap != []
      ensures IsEarliest(entries, heap[0].node.id)
    {
      forall other | other in entries ensures !Earlier(entries[other].waitUntil, heap[0].waitUntil) {
        RootIsEarliest(times, index[other].index);
      }
    }

    method Peek() returns (r: DelayHeapNode?<T>)
      requires Valid()
      ensures r == null <==> entries == map[]
      ensures r != null ==>
        && r in nodes && IsEarliest(entries, r.node.id)
        && entries[r.node.id] == Entry(r.node.value, r.waitUntil)
    {
      if |heap| == 0 {
        return null;
      }
      RootIsEarliestEntry();
      return heap[0];
    }

    method ContainsID(id: Id) returns (found: bool)
      requires Valid()
      ensures found <==> exists n :: n in nodes && n.node.id == id
    {
      return id in index;
    }

    method Contains(heapNode: HeapNode<T>) returns (found: bool)
      requires Valid()
      ensures found <==> exists n :: n in nodes && n.node.id == heapNode.id
    {
      return heapNode.id in index;
    }

    method Update(heapNode: HeapNode<T>, waitUntil: Time) returns (ok: bool)
      requires Valid()
      modifies `heap, `times, `entries, nodes
      ensures Valid()
      ensures ok <==> heapNode.id in old(entries)
      ensures ok ==> entries == old(entries)[heapNode.id := Entry(heapNode.value, waitUntil)]
      ensures !ok ==> unchanged(this) && unchanged(nodes)
    {
      if heapNode.id !in index {
        return false;
      }
      hide Ordered, DisturbedAt;
      var existing := index[heapNode.id];
      ReplacingDisturbs(times, existing.index, waitUntil);
      Overwrite(existing, heapNode, waitUntil);
      HeapFix(existing.index);
      return true;
    }

    // The two assignments of Update.
    method Overwrite(n: DelayHeapNode<T>, heapNode: HeapNode<T>, waitUntil: Time)
      requires Positioned() && Indexed() && n in nodes && n.node.id == heapNode.id
      modifies `times, `entries, n`node, n`waitUntil
      ensures Positioned() && Indexed() && times == old(times)[n.index := waitUntil]
      ensures entries == old(entries)[heapNode.id := Entry(heapNode.value, waitUntil)]
    {
      hide *;
      SetNode(n, heapNode);
      SetWaitUntil(n, waitUntil);
    }

    method SetNode(n: DelayHeapNode<T>, heapNode: HeapNode<T>)
      requires Indexed() && n in nodes && n.node.id == heapNode.id
      modifies `entries, n`node
      ensures Indexed() && n.node == heapNode
      ensures entries == old(entries)[heapNode.id := Entry(heapNode.value, n.waitUntil)]
    {
      n.node := heapNode;
      entries := entries[heapNode.id := Entry(heapNode.value, n.waitUntil)];
    }

    method SetWaitUntil(n: DelayHeapNode<T>, waitUntil: Time)
      requires Positioned() && Indexed() && n in nodes
      modifies `times, `entries, n`waitUntil
      ensures Positioned() && Indexed() && times == old(times)[n.index := waitUntil]
      ensures entries == old(entries)[n.node.id := Entry(n.node.value, waitUntil)]
    {
      hide Positioned;
      assert forall m | m in nodes && m != n :: m.node.id != n.node.id;
      SetTime(n, waitUntil);
      entries := entries[n.node.id := Entry(n.node.value, waitUntil)];
    }

    method SetTime(n: DelayHeapNode<T>, waitUntil: Time)
      requires Positioned() && n in nodes
      modifies `times, n`waitUntil
      ensures Positioned() && times == old(times)[n.index := waitUntil] && n.waitUntil == waitUntil
    {
      n.waitUntil := waitUntil;
      times := times[n.index := waitUntil];
    }

    method Remove(heapNode: HeapNode<T>) returns (ok: bool)
      requires Valid()
      modifies this, nodes`index
      ensures Valid() && nodes <= old(nodes)
      ensures ok <==> heapNode.id in old(entries)
      ensures entries == old(entries) - {heapNode.id}
      ensures !ok ==> unchanged(this) && unchanged(nodes)
    {
      if heapNode.id !in index {
        assert entries == entries - {heapNode.id};
        return false;
      }
      var n := TakeOut(index[heapNode.id].index);
      return true;
    }

    method Length() returns (n: nat)
      requires Valid()
      ensures n == |entries|
    {
      EntriesCount();
      return |heap|;
    }

    lemma EntriesCount()
      requires Valid()
      ensures |entries| == |heap|
    {
      var at := heap;
      var ids := seq(|at|, i requires 0 <= i < |at| reads if 0 <= i < |at| then {at[i]} else {} => at[i].node.id);
      assert forall id | id in index :: id == ids[index[id].index];
      DistinctMultiset(ids, index.Keys);
      assert |ids| == |multiset(ids)| == |index.Keys|;
    }
  }

  // Pops until nothing is left: every id comes out once, and none after a later one.
  method Drain<T>(h: DelayHeap<T>) returns (popped: seq<Id>)
    requires h.Valid()
    modifies h, h.nodes
    ensures h.Valid() && h.entries == map[] && PopsInOrder(old(h.entries), popped)
    ensures forall i, j | 0 <= i < j < |popped| ::
      && popped[i] in old(h.entries) && popped[j] in old(h.entries)
      && InOrderAt(old(h.entries), popped, i, j)
    ensures multiset(popped) == multiset(old(h.entries).Keys)
  {
    ghost var all := h.entries;
    popped := PopAll(h);
    DrainingIsPermutation(all, popped);
    forall i, j | 0 <= i < j < |popped|
      ensures popped[i] in all && popped[j] in all && InOrderAt(all, popped, i, j)
    {
      DrainingSorts(all, popped, i, j);
    }
  }

  // The loop of Drain.
  method PopAll<T>(h: DelayHeap<T>) returns (popped: seq<Id>)
    requires h.Valid()
    modifies h, h.nodes
    ensures h.Valid() && h.entries == map[] && PopsInOrder(old(h.entries), popped)
  {
    hide DelayHeap.Valid, IsEarliest, PopsTo;
    popped := [];
    PopsNothing(h.entries);
    while true
      invariant h.Valid() && h.nodes <= old(h.nodes)
      invariant PopsTo(old(h.entries), popped, h.entries)
      decreases |h.entries|
    {
      ghost var before := h.entries;
      var r := h.Pop();
      if r == null {
        break;
      }
      PopOneMore(old(h.entries), popped, before, r.node.id);
      ShrinksByOne(before, r.node.id);
      popped := popped + [r.node.id];
    }
  }

  lemma PopsNothing<T>(entries: map<Id, Entry<T>>)
    ensures PopsTo(entries, [], entries)
  {
  }

  lemma ShrinksByOne<T>(entries: map<Id, Entry<T>>, id: Id)
    requires IsEarliest(entries, id)
    ensures |entries - {id}| == |entries| - 1
  {
    assert (entries - {id}).Keys == entries.Keys - {id};
  }

  lemma {:induction false} DistinctMultiset<K>(list: seq<K>, keys: set<K>)
    requires forall i, j | 0 <= i < j < |list| :: list[i] != list[j]
    requires keys == set k | k in list
    ensures multiset(list) == multiset(keys)
  {
    if list != [] {
      var last := |list| - 1;
      DistinctMultiset(list[..last], keys - {list[last]});
      assert list == list[..last] + [list[last]];
    }
  }
}
