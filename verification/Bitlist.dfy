/** A list of bits packed into bytes, ended by a set bit: the Bitlist of the SSZ serialization. */
module BitLists {
  import opened Types

  function Bit(j: nat): bv8
    requires j < 8
  {
    1 << j
  }

  predicate HasBit(x: bv8, j: nat)
    requires j < 8
  {
    x & Bit(j) == Bit(j)
  }

  // The bits needed to write a byte.
  function Len8(x: bv8): (n: nat)
    ensures n <= 8
    ensures 0 < n ==> HasBit(x, n - 1)
    ensures forall j | n <= j < 8 :: !HasBit(x, j)
  {
    BitValues();
    if x >= 128 then 8
    else if x >= 64 then 7
    else if x >= 32 then 6
    else if x >= 16 then 5
    else if x >= 8 then 4
    else if x >= 4 then 3
    else if x >= 2 then 2
    else if x >= 1 then 1
    else 0
  }

  lemma BitValues()
    ensures Bit(0) == 1 && Bit(1) == 2 && Bit(2) == 4 && Bit(3) == 8
    ensures Bit(4) == 16 && Bit(5) == 32 && Bit(6) == 64 && Bit(7) == 128
  {}

  function SetBit(x: bv8, j: nat, val: bool): bv8
    requires j < 8
  {
    if val then x | Bit(j) else x & !Bit(j)
  }

  lemma BitIsNotZero(j: nat)
    requires j < 8
    ensures Bit(j) != 0
  {
    BitValues();
  }

  lemma BitsAreApart(j: nat, k: nat)
    requires j < 8 && k < 8 && j != k
    ensures Bit(j) & Bit(k) == 0
  {
    BitValues();
  }

  lemma SettingSets(x: bv8, bit: bv8, other: bv8)
    requires bit != 0 && other != 0 && (bit == other || bit & other == 0)
    ensures (x | bit) & other == other <==> bit == other || x & other == other
    ensures (x & !bit) & other == other <==> bit != other && x & other == other
  {}

  lemma SetBitSets(x: bv8, j: nat, val: bool, k: nat)
    requires j < 8 && k < 8
    ensures HasBit(SetBit(x, j, val), k) == if k == j then val else HasBit(x, k)
  {
    hide Bit;
    BitIsNotZero(j);
    BitIsNotZero(k);
    if k != j {
      BitsAreApart(j, k);
    }
    SettingSets(x, Bit(j), Bit(k));
  }

  lemma SameByte(x: bv8, y: bv8)
    requires forall j | 0 <= j < 8 :: HasBit(x, j) == HasBit(y, j)
    ensures x == y
  {
    BitValues();
    assert HasBit(x, 0) == HasBit(y, 0) && HasBit(x, 1) == HasBit(y, 1) && HasBit(x, 2) == HasBit(y, 2);
    assert HasBit(x, 3) == HasBit(y, 3) && HasBit(x, 4) == HasBit(y, 4) && HasBit(x, 5) == HasBit(y, 5);
    assert HasBit(x, 6) == HasBit(y, 6) && HasBit(x, 7) == HasBit(y, 7);
  }

  // The highest set bit determines the length of a byte.
  lemma Len8IsUnique(x: bv8, n: nat)
    requires 0 < n <= 8 && HasBit(x, n - 1)
    requires forall j | n <= j < 8 :: !HasBit(x, j)
    ensures Len8(x) == n
  {
    assert Len8(x) <= n;
  }

  // A bit of all the bytes together.
  predicate BitOf(b: seq<bv8>, j: nat)
    requires j < 8 * |b|
  {
    HasBit(b[j / 8], j % 8)
  }

  // The number of bits before the last set one of the last byte.
  function Len(b: seq<bv8>): (n: nat)
    ensures !Ended(b) ==> n == 0
    ensures Ended(b) ==> 8 * (|b| - 1) <= n < 8 * |b| && BitOf(b, n)
  {
    if |b| == 0 then 0 else
    var msb := Len8(b[|b| - 1]);
    if msb == 0 then 0 else 8 * (|b| - 1) + msb - 1
  }

  // The list of bits that the bytes stand for: none if they are not ended.
  function Bits(b: seq<bv8>): (bits: seq<bool>)
    ensures |bits| == Len(b)
  {
    seq(Len(b), j requires 0 <= j < Len(b) => BitOf(b, j))
  }

  predicate Ended(b: seq<bv8>) {
    |b| > 0 && Len8(b[|b| - 1]) != 0
  }

  // The serialization of a list: its bits, a set bit, and clear bits up to the end of the byte.
  ghost predicate IsSerialized(b: seq<bv8>, bits: seq<bool>) {
    && |b| == |bits| / 8 + 1
    && forall j: nat | j < 8 * |b| :: BitOf(b, j) == if j < |bits| then bits[j] else j == |bits|
  }

  // Bytes are a serialization exactly when they are ended, and then of the bits they stand for.
  lemma SerializedExactly(b: seq<bv8>, bits: seq<bool>)
    ensures IsSerialized(b, bits) <==> Ended(b) && Bits(b) == bits
  {
    if IsSerialized(b, bits) {
      SerializedIsEnded(b, bits);
    } else if Ended(b) && Bits(b) == bits {
      EndedIsSerialized(b);
    }
  }

  lemma SerializedIsEnded(b: seq<bv8>, bits: seq<bool>)
    requires IsSerialized(b, bits)
    ensures Ended(b) && Bits(b) == bits
  {
    var n, last := |bits|, |b| - 1;
    assert BitOf(b, n);
    forall j | n % 8 < j < 8 ensures !HasBit(b[last], j) {
      assert !BitOf(b, 8 * last + j);
    }
    Len8IsUnique(b[last], n % 8 + 1);
  }

  lemma EndedIsSerialized(b: seq<bv8>)
    requires Ended(b)
    ensures IsSerialized(b, Bits(b))
  {
    var bits, last := Bits(b), |b| - 1;
    forall j: nat | j < 8 * |b| ensures BitOf(b, j) == if j < |bits| then bits[j] else j == |bits| {
      if j > |bits| {
        assert j / 8 == last && Len8(b[last]) <= j % 8;
      }
    }
  }

  lemma SerializationIsUnique(a: seq<bv8>, b: seq<bv8>, bits: seq<bool>)
    requires IsSerialized(a, bits) && IsSerialized(b, bits)
    ensures a == b
  {
    forall i | 0 <= i < |a| ensures a[i] == b[i] {
      forall j | 0 <= j < 8 ensures HasBit(a[i], j) == HasBit(b[i], j) {
        assert BitOf(a, 8 * i + j) == BitOf(b, 8 * i + j);
      }
      SameByte(a[i], b[i]);
    }
  }

  function BitAt(b: seq<bv8>, indx: uint64): (r: bool)
    ensures r <==> indx < |Bits(b)| && Bits(b)[indx]
  {
    if indx >= Len(b) then
      false
    else
      var bit := Bit(indx % 8);
      b[indx / 8] & bit == bit
  }

  function Put(bits: seq<bool>, indx: nat, val: bool): seq<bool> {
    if indx < |bits| then bits[indx := val] else bits
  }

  method NewBitlist(n: uint64) returns (ret: array<bv8>)
    ensures fresh(ret)
    ensures IsSerialized(ret[..], seq(n, _ => false))
  {
    ret := new bv8[n / 8 + 1](_ => 0);
    var i := Bit(n % 8);
    ret[n / 8] := ret[n / 8] | i;
    NewIsSerialized(ret[..], n);
  }

  lemma NewIsSerialized(b: seq<bv8>, n: nat)
    requires |b| == n / 8 + 1 && b[n / 8] == 0 | Bit(n % 8)
    requires forall i | 0 <= i < n / 8 :: b[i] == 0
    ensures IsSerialized(b, seq(n, _ => false))
  {
    forall j: nat | j < 8 * |b| ensures BitOf(b, j) == (j == n) {
      NoBits(j % 8);
      if j / 8 == n / 8 {
        SetBitSets(0, n % 8, true, j % 8);
      }
    }
  }

  lemma NoBits(j: nat)
    requires j < 8
    ensures !HasBit(0, j)
  {
    BitValues();
  }

  datatype Write = Write(indx: nat, val: bool)

  function WithBit(b: seq<bv8>, w: Write): seq<bv8> {
    if w.indx >= Len(b) then b else b[w.indx / 8 := SetBit(b[w.indx / 8], w.indx % 8, w.val)]
  }

  // Sets one bit, and nothing out of range.
  method SetBitAt(b: array<bv8>, indx: uint64, val: bool)
    modifies b
    ensures Bits(b[..]) == Put(old(Bits(b[..])), indx, val)
    ensures Ended(b[..]) <==> old(Ended(b[..]))
    ensures b[..] == WithBit(old(b[..]), Write(indx, val))
  {
    hide Bit, HasBit, BitOf, Bits, Len, Ended, SetBit;
    if indx >= Len(b[..]) {
      return;
    }
    ghost var before := b[..];
    b[indx / 8] := SetBit(b[indx / 8], indx % 8, val);
    assert b[..] == before[indx / 8 := SetBit(before[indx / 8], indx % 8, val)];
    SettingPuts(before, indx, val);
  }

  lemma SettingPuts(b: seq<bv8>, indx: nat, val: bool)
    requires indx < Len(b)
    ensures var after := b[indx / 8 := SetBit(b[indx / 8], indx % 8, val)];
      Ended(b) && Ended(after) && Bits(after) == Put(Bits(b), indx, val)
  {
    var after := b[indx / 8 := SetBit(b[indx / 8], indx % 8, val)];
    var bits := Bits(b);
    EndedIsSerialized(b);
    forall j: nat | j < 8 * |after|
      ensures BitOf(after, j) == if j < |bits| then Put(bits, indx, val)[j] else j == |bits|
    {
      assert BitOf(b, j) == if j < |bits| then bits[j] else j == |bits|;
      SetBitSets(b[indx / 8], indx % 8, val, j % 8);
    }
    SerializedIsEnded(after, Put(bits, indx, val));
  }

  // Runs of writes.

  function Written(b: seq<bv8>, ws: seq<Write>): seq<bv8> {
    if ws == [] then b else WithBit(Written(b, ws[..|ws| - 1]), ws[|ws| - 1])
  }

  function PutAll(bits: seq<bool>, ws: seq<Write>): (after: seq<bool>)
    ensures |after| == |bits|
  {
    if ws == [] then bits else Put(PutAll(bits, ws[..|ws| - 1]), ws[|ws| - 1].indx, ws[|ws| - 1].val)
  }

  // Writing to the bytes is writing to the list, and keeps the end where it is.
  lemma {:induction false} WrittenPutsAll(b: seq<bv8>, ws: seq<Write>)
    ensures Bits(Written(b, ws)) == PutAll(Bits(b), ws)
    ensures Ended(Written(b, ws)) == Ended(b) && Len(Written(b, ws)) == Len(b) && |Written(b, ws)| == |b|
  {
    if ws != [] {
      var w, before := ws[|ws| - 1], Written(b, ws[..|ws| - 1]);
      WrittenPutsAll(b, ws[..|ws| - 1]);
      if w.indx < Len(before) {
        SettingPuts(before, w.indx, w.val);
      }
      assert |Bits(Written(b, ws))| == Len(Written(b, ws));
    }
  }

  // Each bit is the last one written to it, or the one it was.
  lemma {:induction false} LastWriteWins(bits: seq<bool>, ws: seq<Write>, k: nat, j: nat)
    requires k <= |ws| && j < |bits| && forall i | k <= i < |ws| :: ws[i].indx != j
    ensures PutAll(bits, ws)[j] ==
      if k == 0 then bits[j]
      else if ws[k - 1].indx == j then ws[k - 1].val
      else PutAll(bits, ws[..k])[j]
    decreases |ws|
  {
    if |ws| == k {
      assert ws[..k] == ws;
    } else {
      var rest := ws[..|ws| - 1];
      LastWriteWins(bits, rest, k, j);
      assert rest[..k] == ws[..k];
    }
  }

  // A new list with every bit written is the serialization of the bits.
  lemma WritingSerializes(b: seq<bv8>, bits: seq<bool>)
    requires IsSerialized(b, seq(|bits|, _ => false))
    ensures IsSerialized(Written(b, seq(|bits|, j requires 0 <= j < |bits| => Write(j, bits[j]))), bits)
  {
    var ws := seq(|bits|, j requires 0 <= j < |bits| => Write(j, bits[j]));
    var clear := seq(|bits|, _ => false);
    SerializedExactly(b, clear);
    WrittenPutsAll(b, ws);
    forall j | 0 <= j < |bits| ensures PutAll(clear, ws)[j] == bits[j] {
      LastWriteWins(clear, ws, j + 1, j);
    }
    SerializedExactly(Written(b, ws), bits);
  }
}
