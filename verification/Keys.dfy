/** The keys of the store's indexes: big-endian numbers, names and ids, compared byte by byte. */
module Keys {
  import opened Types

  type Key = seq<byte>

  // Byte-lexicographic order; a proper prefix comes first.
  predicate Below(a: Key, b: Key) {
    if b == [] then false
    else if a == [] then true
    else a[0] < b[0] || (a[0] == b[0] && Below(a[1..], b[1..]))
  }

  lemma {:induction false} BelowIsTotal(a: Key, b: Key)
    ensures !Below(a, a)
    ensures !(Below(a, b) && Below(b, a))
    ensures a == b || Below(a, b) || Below(b, a)
    decreases |a|
  {
    if a != [] {
      BelowIsTotal(a[1..], if b == [] then [] else b[1..]);
      assert b != [] && a[0] == b[0] && a[1..] == b[1..] ==> a == b by {
        assert a == [a[0]] + a[1..];
        assert b != [] ==> b == [b[0]] + b[1..];
      }
    }
  }

  lemma {:induction false} BelowIsTransitive(a: Key, b: Key, c: Key)
    requires Below(a, b) && Below(b, c)
    ensures Below(a, c)
    decreases |a|
  {
    if a != [] && a[0] == b[0] == c[0] {
      BelowIsTransitive(a[1..], b[1..], c[1..]);
    }
  }

  // Keys with prefixes of the same length are compared by their prefixes first.
  lemma {:induction false} BelowByParts(a: Key, b: Key, c: Key, d: Key)
    requires |a| == |b|
    ensures Below(a + c, b + d) <==> Below(a, b) || (a == b && Below(c, d))
    ensures a + c == b + d <==> a == b && c == d
    decreases |a|
  {
    if a == [] {
      assert a + c == c && b + d == d;
    } else {
      BelowByParts(a[1..], b[1..], c, d);
      assert (a + c)[1..] == a[1..] + c && (b + d)[1..] == b[1..] + d;
      assert a == [a[0]] + a[1..] && b == [b[0]] + b[1..];
      assert (a + c)[..|a|] == a && (b + d)[..|b|] == b && (a + c)[|a|..] == c && (b + d)[|b|..] == d;
    }
  }

  // Terminated strings are compared as strings.
  lemma {:induction false} TerminatedBelow(a: Key, b: Key)
    ensures Below(a + [0], b + [0]) <==> Below(a, b)
    decreases |a|
  {
    if a == [] {
      assert a + [0] == [0];
      if b != [] {
        assert (b + [0])[1..] == b[1..] + [0] && |b[1..] + [0]| > 0;
        assert [0][1..] == [];
      } else {
        assert b + [0] == [0];
        BelowIsTotal([0], [0]);
      }
    } else if b == [] {
      assert b + [0] == [0] && [0][1..] == [];
    } else {
      assert (a + [0])[1..] == a[1..] + [0] && (b + [0])[1..] == b[1..] + [0];
      TerminatedBelow(a[1..], b[1..]);
    }
  }

  function BigEndian(n: nat, width: nat): (k: Key)
    ensures |k| == width
  {
    if width == 0 then [] else BigEndian(n / 256, width - 1) + [(n % 256) as byte]
  }

  function Power(width: nat): nat {
    if width == 0 then 1 else 256 * Power(width - 1)
  }

  lemma SingleBelow(a: byte, b: byte)
    ensures Below([a], [b]) <==> a < b
  {
    assert [a][1..] == [] && [b][1..] == [];
  }

  // Big-endian numbers of one width are compared as numbers.
  lemma {:induction false} BigEndianOrder(n: nat, m: nat, width: nat)
    requires n < Power(width) && m < Power(width)
    ensures Below(BigEndian(n, width), BigEndian(m, width)) <==> n < m
    ensures BigEndian(n, width) == BigEndian(m, width) <==> n == m
  {
    if width > 0 {
      BigEndianOrder(n / 256, m / 256, width - 1);
      var a, b := (n % 256) as byte, (m % 256) as byte;
      BelowByParts(BigEndian(n / 256, width - 1), BigEndian(m / 256, width - 1), [a], [b]);
      SingleBelow(a, b);
    }
  }

  function U64(n: uint64): (k: Key)
    ensures |k| == 8
  {
    BigEndian(n, 8)
  }

  lemma U64Order(n: uint64, m: uint64)
    ensures Below(U64(n), U64(m)) <==> n < m
    ensures U64(n) == U64(m) <==> n == m
  {
    assert Power(8) == 0x1_0000_0000_0000_0000 by {
      assert Power(4) == 0x1_0000_0000;
      assert Power(6) == 256 * Power(5) && Power(5) == 256 * Power(4);
      assert Power(8) == 256 * Power(7) && Power(7) == 256 * Power(6);
    }
    BigEndianOrder(n, m, 8);
  }

  // The keys of the indexes. The id index terminates its keys, and every other key ends with the id's.

  const SOURCE: Key := [115, 111, 117, 114, 99, 101]
  const TARGET: Key := [116, 97, 114, 103, 101, 116]

  function Terminated(s: Key): Key {
    s + [0]
  }

  function BlockKey(validator: uint64, slot: uint64): Key {
    U64(validator) + U64(slot)
  }

  function Kind(target: bool): Key {
    Terminated(if target then TARGET else SOURCE)
  }

  function CheckpointKey(validator: uint64, target: bool, epoch: uint64): Key {
    U64(validator) + (Kind(target) + U64(epoch))
  }

  function WithId(key: Key, id: Id): Key {
    key + Terminated(id)
  }

  // Keys of the block index are ordered as triples of a validator, a slot and an id.
  lemma BlockKeyOrder(v: uint64, s: uint64, id: Id, v': uint64, s': uint64, id': Id)
    ensures Below(WithId(BlockKey(v, s), id), WithId(BlockKey(v', s'), id')) <==>
      v < v' || (v == v' && (s < s' || (s == s' && Below(id, id'))))
    ensures WithId(BlockKey(v, s), id) == WithId(BlockKey(v', s'), id') <==> v == v' && s == s' && id == id'
  {
    BelowByParts(BlockKey(v, s), BlockKey(v', s'), Terminated(id), Terminated(id'));
    BelowByParts(U64(v), U64(v'), U64(s), U64(s'));
    U64Order(v, v');
    U64Order(s, s');
    TerminatedBelow(id, id');
    TerminatedEqual(id, id');
  }

  lemma TerminatedEqual(a: Key, b: Key)
    ensures Terminated(a) == Terminated(b) <==> a == b
  {
    assert Terminated(a)[..|a|] == a && Terminated(b)[..|b|] == b;
  }

  lemma KindOrder(t: bool, t': bool)
    ensures |Kind(t)| == 7
    ensures Below(Kind(t), Kind(t')) <==> !t && t'
    ensures Kind(t) == Kind(t') <==> t == t'
  {
    assert Kind(false)[0] == 115 && Kind(true)[0] == 116;
    BelowIsTotal(Kind(t), Kind(t'));
  }

  // Keys of the attestation index are ordered as a validator, a kind, an epoch and an id.
  lemma CheckpointKeyOrder(v: uint64, t: bool, e: uint64, id: Id, v': uint64, t': bool, e': uint64, id': Id)
    ensures Below(WithId(CheckpointKey(v, t, e), id), WithId(CheckpointKey(v', t', e'), id')) <==>
      v < v' || (v == v' && ((!t && t') || (t == t' && (e < e' || (e == e' && Below(id, id'))))))
    ensures WithId(CheckpointKey(v, t, e), id) == WithId(CheckpointKey(v', t', e'), id') <==>
      v == v' && t == t' && e == e' && id == id'
  {
    KindOrder(t, t');
    KindOrder(t', t);
    BelowByParts(CheckpointKey(v, t, e), CheckpointKey(v', t', e'), Terminated(id), Terminated(id'));
    BelowByParts(U64(v), U64(v'), Kind(t) + U64(e), Kind(t') + U64(e'));
    BelowByParts(Kind(t), Kind(t'), U64(e), U64(e'));
    U64Order(v, v');
    U64Order(e, e');
    TerminatedBelow(id, id');
    TerminatedEqual(id, id');
  }

  // A seek for a number finds the keys that start with this number or a greater one.
  lemma SeekNumber(n: uint64, bound: uint64, rest: Key)
    ensures Below(U64(n) + rest, U64(bound)) <==> n < bound
    ensures U64(bound) <= U64(n) + rest <==> n == bound
  {
    assert U64(bound) + [] == U64(bound);
    BelowByParts(U64(n), U64(bound), rest, []);
    U64Order(n, bound);
    assert (U64(n) + rest)[..8] == U64(n);
  }

  // A seek for a validator and a kind finds the keys from this validator and kind on.
  lemma SeekCheckpoint(v: uint64, t: bool, e: uint64, id: Id, v': uint64, t': bool)
    ensures Below(WithId(CheckpointKey(v, t, e), id), U64(v') + Kind(t')) <==> v < v' || (v == v' && !t && t')
  {
    KindOrder(t, t');
    assert U64(v') + Kind(t') == U64(v') + (Kind(t') + []);
    assert WithId(CheckpointKey(v, t, e), id) == U64(v) + (Kind(t) + (U64(e) + Terminated(id)));
    BelowByParts(U64(v), U64(v'), Kind(t) + (U64(e) + Terminated(id)), Kind(t') + []);
    BelowByParts(Kind(t), Kind(t'), U64(e) + Terminated(id), []);
    U64Order(v, v');
  }

  // A seek for a validator and a slot finds the records of that validator at that slot.
  lemma SeekBlock(v: uint64, s: uint64, id: Id, v': uint64, s': uint64)
    ensures BlockKey(v', s') <= WithId(BlockKey(v, s), id) <==> v == v' && s == s'
  {
    assert WithId(BlockKey(v, s), id)[..16] == BlockKey(v, s);
    BelowByParts(U64(v), U64(v'), U64(s), U64(s'));
    U64Order(v, v');
    U64Order(s, s');
  }

  // The writer that builds the keys.
  class BytesWriter {
    var out: Key

    constructor ()
      ensures out == []
    {
      out := [];
    }

    method Write(buf: Key)
      modifies this
      ensures out == old(out) + buf
    {
      out := out + buf;
    }

    method Uint64(i: uint64)
      modifies this
      ensures out == old(out) + U64(i)
    {
      var buf: Key := U64(i);
      Write(buf);
    }

    method String(s: Key)
      modifies this
      ensures out == old(out) + Terminated(s)
    {
      Write(s + [0]);
    }
  }

  method BlockKeyBytes(validator: uint64, slot: uint64) returns (key: Key)
    ensures key == BlockKey(validator, slot)
  {
    var bb := new BytesWriter();
    bb.Uint64(validator);
    bb.Uint64(slot);
    assert [] + U64(validator) + U64(slot) == BlockKey(validator, slot);
    return bb.out;
  }

  method CheckpointKeyBytes(validator: uint64, target: bool, epoch: uint64) returns (key: Key)
    ensures key == CheckpointKey(validator, target, epoch)
  {
    var bb := new BytesWriter();
    bb.Uint64(validator);
    bb.String(if target then TARGET else SOURCE);
    bb.Uint64(epoch);
    assert [] + U64(validator) + Kind(target) + U64(epoch) == CheckpointKey(validator, target, epoch);
    return bb.out;
  }
}
