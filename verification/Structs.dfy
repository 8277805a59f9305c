/** C structures of CK_ULONG and pointer fields, as bytes: under LP64 each field
  is one word of eight bytes, and there is no padding. */
module Structs {
  import opened CHeap
  import opened ULongBytes

  /** The bytes of a structure with these fields. */
  function Encode(fields: seq<nat>): (bytes: seq<Byte>)
    ensures |bytes| == 8 * |fields|
  {
    if fields == [] then [] else ToBytes(fields[0], 8) + Encode(fields[1..])
  }

  /** A reader finds each field in its eight bytes. */
  lemma {:induction false} FieldAt(fields: seq<nat>, i: nat)
    requires i < |fields| && fields[i] < Words(8)
    ensures FromBytes(Encode(fields)[8 * i..8 * i + 8]) == fields[i]
  {
    var first, rest := ToBytes(fields[0], 8), Encode(fields[1..]);
    if i == 0 {
      assert Encode(fields)[..8] == first;
      FromToBytes(fields[0], 8);
    } else {
      FieldAt(fields[1..], i - 1);
      assert Encode(fields)[8 * i..8 * i + 8] == rest[8 * (i - 1)..8 * (i - 1) + 8];
    }
  }

  /** A live block holds a structure. */
  predicate HoldsStruct(live: map<Ptr, seq<Byte>>, p: Ptr, fields: seq<nat>) {
    p in live && live[p] == Encode(fields)
  }

  /** Store all fields of a structure. */
  method Store(h: Heap, p: Ptr, fields: seq<nat>)
    requires h.Valid() && p in h.live && |h.live[p]| == 8 * |fields|
    modifies h`live
    ensures h.Valid() && h.live == old(h.live)[p := Encode(fields)]
  {
    var bytes := Encode(fields);
    h.Write(p, |bytes|, bytes);
    assert Written(old(h.live)[p], |bytes|, bytes) == bytes;
  }

  /** What a native reader finds in word i of a block. */
  function WordAt(live: map<Ptr, seq<Byte>>, p: Ptr, i: nat): nat {
    if p in live && 8 * i + 8 <= |live[p]| then FromBytes(live[p][8 * i..8 * i + 8]) else 0
  }

  lemma ReadsField(live: map<Ptr, seq<Byte>>, p: Ptr, fields: seq<nat>, i: nat)
    requires HoldsStruct(live, p, fields) && i < |fields| && fields[i] < 0x1_0000_0000_0000_0000
    ensures WordAt(live, p, i) == fields[i]
  {
    EightBytes();
    FieldAt(fields, i);
  }

  lemma EightBytes()
    ensures Words(8) == 0x1_0000_0000_0000_0000
  {
    assert Words(4) == 0x1_0000_0000;
  }

  predicate FitsWord(p: Ptr) {
    p < 0x1_0000_0000_0000_0000
  }

  lemma ReadsAll(live: map<Ptr, seq<Byte>>, p: Ptr, fields: seq<nat>)
    requires HoldsStruct(live, p, fields) && forall i | 0 <= i < |fields| :: FitsWord(fields[i])
    ensures forall i | 0 <= i < |fields| :: WordAt(live, p, i) == fields[i]
  {
    forall i | 0 <= i < |fields| ensures WordAt(live, p, i) == fields[i] {
      ReadsField(live, p, fields, i);
    }
  }
}
