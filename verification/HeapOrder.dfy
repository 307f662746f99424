/**
 The order of the delay heap, on the sequence of its due times alone: what the sift procedures
 maintain, one step at a time, and why the root of an ordered heap is a minimum.
 */
module HeapOrder {
  import opened Types

  // Times are sorted in their natural order, except that the zero time comes last.
  predicate Earlier(a: Time, b: Time) {
    if a == ZERO_TIME then false
    else if b == ZERO_TIME then true
    else a < b
  }

  // Earlier is a strict weak order: its incomparability is an equivalence, in fact equality.
  lemma EarlierIsStrictWeakOrder(a: Time, b: Time, c: Time)
    ensures !Earlier(a, a)
    ensures Earlier(a, b) && Earlier(b, c) ==> Earlier(a, c)
    ensures Earlier(a, b) ==> Earlier(a, c) || Earlier(c, b)
    ensures !Earlier(a, b) && !Earlier(b, a) <==> a == b
    ensures Earlier(a, ZERO_TIME) <==> a != ZERO_TIME
    ensures a != ZERO_TIME && b != ZERO_TIME ==> (Earlier(a, b) <==> a < b)
  {
  }

  function Parent(k: nat): (p: nat)
    requires 0 < k
    ensures p < k
  {
    (k - 1) / 2
  }

  function Swapped<T>(s: seq<T>, i: nat, j: nat): seq<T>
    requires i < |s| && j < |s|
  {
    s[i := s[j]][j := s[i]]
  }

  ghost predicate OrderedAt(ts: seq<Time>, k: nat)
    requires 0 < k < |ts|
  {
    !Earlier(ts[k], ts[Parent(k)])
  }

  // Among the first n times, none is earlier than its parent.
  ghost predicate Ordered(ts: seq<Time>, n: nat)
    requires n <= |ts|
  {
    forall k | 0 < k < n :: OrderedAt(ts, k)
  }

  // The children of position p are not earlier than the parent of p.
  ghost predicate ChildrenFit(ts: seq<Time>, p: nat, n: nat)
    requires n <= |ts|
  {
    forall c | 0 < c < n && Parent(c) == p && 0 < p :: !Earlier(ts[c], ts[Parent(p)])
  }

  // Ordered, except that the time at p may be earlier than its parent.
  ghost predicate TooEarlyAt(ts: seq<Time>, p: nat, n: nat)
    requires n <= |ts|
  {
    (forall k | 0 < k < n && k != p :: OrderedAt(ts, k)) && ChildrenFit(ts, p, n)
  }

  // Ordered, except that the children of p may be earlier than p.
  ghost predicate TooLateAt(ts: seq<Time>, p: nat, n: nat)
    requires n <= |ts|
  {
    (forall k | 0 < k < n && Parent(k) != p :: OrderedAt(ts, k)) && ChildrenFit(ts, p, n)
  }

  // Ordered, except around p: this is what replacing the time at p leaves behind.
  ghost predicate DisturbedAt(ts: seq<Time>, p: nat, n: nat)
    requires n <= |ts|
  {
    (forall k | 0 < k < n && k != p && Parent(k) != p :: OrderedAt(ts, k)) && ChildrenFit(ts, p, n)
  }

  // Where sifting down from start stands when it has reached i.
  ghost predicate SiftingDown(ts: seq<Time>, start: nat, i: nat, n: nat)
    requires n <= |ts|
  {
    start <= i <= n && if i == start then DisturbedAt(ts, i, n) else TooLateAt(ts, i, n)
  }

  lemma ReplacingDisturbs(ts: seq<Time>, p: nat, t: Time)
    requires p < |ts| && Ordered(ts, |ts|)
    ensures DisturbedAt(ts[p := t], p, |ts|)
  {
    var us := ts[p := t];
    forall k | 0 < k < |us| && k != p && Parent(k) != p ensures OrderedAt(us, k) {
      assert OrderedAt(ts, k);
    }
    forall c | 0 < c < |us| && Parent(c) == p && 0 < p ensures !Earlier(us[c], us[Parent(p)]) {
      assert OrderedAt(ts, c) && OrderedAt(ts, p);
    }
  }

  lemma SiftUpStep(ts: seq<Time>, j: nat, n: nat)
    requires 0 < j < n <= |ts| && TooEarlyAt(ts, j, n) && Earlier(ts[j], ts[Parent(j)])
    ensures TooEarlyAt(Swapped(ts, j, Parent(j)), Parent(j), n)
  {
    var p := Parent(j);
    var us := Swapped(ts, j, p);
    forall k | 0 < k < n && k != p ensures OrderedAt(us, k) {
      if k != j {
        assert OrderedAt(ts, k);
      }
    }
    forall c | 0 < c < n && Parent(c) == p && 0 < p ensures !Earlier(us[c], us[Parent(p)]) {
      assert OrderedAt(ts, p);
      if c != j {
        assert OrderedAt(ts, c);
      }
    }
  }

  lemma SiftUpEnds(ts: seq<Time>, j: nat, n: nat)
    requires n <= |ts| && TooEarlyAt(ts, j, n) && j < n
    requires j == 0 || !Earlier(ts[j], ts[Parent(j)])
    ensures Ordered(ts, n)
  {
  }

  // j is a child of i, among the first n positions, and no child of i is earlier.
  ghost predicate EarliestChild(ts: seq<Time>, i: nat, j: nat, n: nat)
    requires n <= |ts|
  {
    && 0 < j < n && Parent(j) == i
    && forall c | 0 < c < n && Parent(c) == i :: !Earlier(ts[c], ts[j])
  }

  // Where one iteration of sifting down moves the time at i: to the position of its earlier child
  // when that child is earlier than the time, and nowhere otherwise.
  function DownTarget(ts: seq<Time>, i: nat, n: nat): (j: nat)
    requires i <= n <= |ts|
    ensures j != i ==> EarliestChild(ts, i, j, n) && Earlier(ts[j], ts[i])
    ensures j == i ==> forall c | 0 < c < n && Parent(c) == i :: !Earlier(ts[c], ts[i])
  {
    var j1 := 2 * i + 1;
    if j1 >= n then i
    else
      var j := if j1 + 1 < n && Earlier(ts[j1 + 1], ts[j1]) then j1 + 1 else j1;
      if Earlier(ts[j], ts[i]) then j else i
  }

  lemma SwappingDown(ts: seq<Time>, start: nat, i: nat, j: nat, n: nat)
    requires n <= |ts| && SiftingDown(ts, start, i, n) && EarliestChild(ts, i, j, n) && Earlier(ts[j], ts[i])
    ensures SiftingDown(Swapped(ts, i, j), start, j, n)
  {
    var us := Swapped(ts, i, j);
    forall k | 0 < k < n && Parent(k) != j ensures OrderedAt(us, k) {
      if k != i && Parent(k) != i {
        assert OrderedAt(ts, k);
      }
    }
    forall c | 0 < c < n && Parent(c) == j ensures !Earlier(us[c], us[i]) {
      assert OrderedAt(ts, c);
    }
  }

  lemma StayingPut(ts: seq<Time>, start: nat, i: nat, n: nat)
    requires n <= |ts| && SiftingDown(ts, start, i, n)
    requires forall c | 0 < c < n && Parent(c) == i :: !Earlier(ts[c], ts[i])
    ensures if i > start then Ordered(ts, n) else TooEarlyAt(ts, i, n)
  {
    assert forall c | 0 < c < n && Parent(c) == i :: OrderedAt(ts, c);
  }

  lemma SiftDownStarts(ts: seq<Time>, i: nat, n: nat)
    requires i <= n <= |ts| && DisturbedAt(ts, i, n)
    ensures SiftingDown(ts, i, i, n)
  {
  }

  // What one iteration of sifting down achieves.
  lemma SiftDownStep(ts: seq<Time>, start: nat, i: nat, n: nat)
    requires n <= |ts| && SiftingDown(ts, start, i, n)
    ensures var j := DownTarget(ts, i, n);
      if j != i then i < j < n && SiftingDown(Swapped(ts, i, j), start, j, n)
      else if i > start then Ordered(ts, n)
      else TooEarlyAt(ts, i, n)
  {
    var j := DownTarget(ts, i, n);
    if j != i {
      SwappingDown(ts, start, i, j, n);
    } else {
      StayingPut(ts, start, i, n);
    }
  }

  // Appending a time leaves the heap ordered except at the new last position.
  lemma AppendingDisturbs(ts: seq<Time>, t: Time)
    requires Ordered(ts, |ts|)
    ensures TooEarlyAt(ts + [t], |ts|, |ts| + 1)
  {
    forall k | 0 < k < |ts| ensures OrderedAt(ts + [t], k) {
      assert OrderedAt(ts, k);
    }
  }

  // Moving the last time to position p, and cutting the last position off, disturbs only p.
  lemma CuttingDisturbs(ts: seq<Time>, p: nat)
    requires p < |ts| && Ordered(ts, |ts|)
    ensures DisturbedAt(Swapped(ts, p, |ts| - 1), p, |ts| - 1)
  {
    var n := |ts| - 1;
    var us := Swapped(ts, p, n);
    ReplacingDisturbs(ts, p, ts[n]);
    assert forall k | 0 < k < n && k != p && Parent(k) != p :: OrderedAt(ts[p := ts[n]], k);
  }

  lemma CuttingKeepsOrder(ts: seq<Time>, n: nat)
    requires n <= |ts| && Ordered(ts, n)
    ensures Ordered(ts[..n], n)
  {
    forall k | 0 < k < n ensures OrderedAt(ts[..n], k) {
      assert OrderedAt(ts, k);
    }
  }

  lemma {:induction false} RootIsEarliest(ts: seq<Time>, k: nat)
    requires k < |ts| && Ordered(ts, |ts|)
    ensures !Earlier(ts[k], ts[0])
  {
    if k != 0 {
      assert OrderedAt(ts, k);
      RootIsEarliest(ts, Parent(k));
    }
  }
}
