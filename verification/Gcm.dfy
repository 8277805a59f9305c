/** GCMParams: a parameter block that outlives the Init call it was built for
  and is released when a release was requested and no build is outstanding
  (cryptoki/params.go). */
module Gcm {
  import opened CHeap
  import opened Marshal
  import opened Structs

  /** sizeof(CK_GCM_PARAMS) under LP64. */
  const GCM_PARAMS_SIZE: nat := 48

  /** The fields of a GCMParams; `gp` is NULL after the release. The buffers are
      recorded with the lengths stored in the native block, which the token
      does not change. */
  datatype Fields = Fields(gp: Ptr, iv: Buf, aad: Buf, inUse: int, freePending: bool)

  /** Nothing was released, or the blocks that were. */
  datatype Effect = Effect(fields: Fields, released: set<Ptr>)

  function Blocks(f: Fields): set<Ptr> {
    {f.gp, f.iv.p, f.aad.p} - {NULL}
  }

  function Released(f: Fields): Fields {
    Fields(NULL, Buf(NULL, 0), Buf(NULL, 0), f.inUse, false)
  }

  /** freeLocked */
  function FreeLocked(f: Fields): Effect {
    if f.gp == NULL then Effect(f, {}) else Effect(Released(f), Blocks(f))
  }

  /** The locked part of build, when the parameters are not released. */
  function Enter(f: Fields): Fields {
    f.(inUse := f.inUse + 1)
  }

  /** The cleanup a build returns. */
  function Leave(f: Fields): Effect {
    var g := f.(inUse := f.inUse - 1);
    if g.inUse == 0 && g.freePending then FreeLocked(g) else Effect(g, {})
  }

  /** Free */
  function Request(f: Fields): Effect {
    if f.gp == NULL then Effect(f, {})
    else if f.inUse > 0 then Effect(f.(freePending := true), {})
    else FreeLocked(f)
  }

  lemma RemoveBlocks(live: map<Ptr, seq<Byte>>, f: Fields)
    requires NULL !in live
    ensures live - {f.iv.p} - {f.aad.p} - {f.gp} == live - Blocks(f)
  {
  }

  predicate Plus(before: map<Ptr, seq<Byte>>, after: map<Ptr, seq<Byte>>, p: Ptr) {
    p !in before && after - {p} == before
  }

  /** What three allocations in a row added. */
  lemma RemoveAdded(before: map<Ptr, seq<Byte>>, one: map<Ptr, seq<Byte>>, two: map<Ptr, seq<Byte>>,
                    three: map<Ptr, seq<Byte>>, f: Fields)
    requires NULL !in three && Plus(before, one, f.gp) && Plus(one, two, f.iv.p) && Plus(two, three, f.aad.p)
    ensures three - Blocks(f) == before && Blocks(f) !! before.Keys
  {
    assert three - Blocks(f) == three - {f.aad.p} - {f.iv.p} - {f.gp};
  }

  /** The blocks of an unreleased object are live at their recorded sizes and
      distinct; a released object has none. */
  predicate Sound(live: map<Ptr, seq<Byte>>, f: Fields) {
    && (f.gp == NULL ==> f.iv == Buf(NULL, 0) == f.aad)
    && (f.gp != NULL ==> f.gp in live && f.gp != f.iv.p && f.gp != f.aad.p)
    && f.iv.size < 0x1_0000_0000_0000_0000
    && (f.iv.p != NULL ==> f.iv.p in live && |live[f.iv.p]| == f.iv.size && f.iv.p != f.aad.p)
    && (f.aad.p != NULL ==> f.aad.p in live && |live[f.aad.p]| == f.aad.size)
  }

  /** The fields of the CK_GCM_PARAMS: pIv, ulIvLen, ulIvBits, pAAD, ulAADLen
      and ulTagBits. The number of bits is a 64-bit product. */
  function ParamFields(f: Fields, tagBits: nat): seq<nat> {
    [f.iv.p, f.iv.size, f.iv.size * 8 % 0x1_0000_0000_0000_0000, f.aad.p, f.aad.size, tagBits]
  }

  /** A new object: its own blocks are all that was added, with the IV, the
      additional data and the fields in them. */
  ghost predicate New(before: map<Ptr, seq<Byte>>, live: map<Ptr, seq<Byte>>, f: Fields, iv: seq<Byte>, aad: seq<Byte>, tagBits: nat) {
    && Sound(live, f) && f.gp != NULL && f.inUse == 0 && !f.freePending
    && live - Blocks(f) == before && Blocks(f) !! before.Keys
    && (if iv == [] then f.iv == Buf(NULL, 0) else f.iv.p != NULL && live[f.iv.p] == iv)
    && (if aad == [] then f.aad == Buf(NULL, 0) else f.aad.p != NULL && live[f.aad.p] == aad)
    && HoldsStruct(live, f.gp, ParamFields(f, tagBits)) && |live[f.gp]| == 48
  }

  /** What the module reads, word by word, when addresses fit a word. */
  lemma NewIsRead(before: map<Ptr, seq<Byte>>, live: map<Ptr, seq<Byte>>, f: Fields, iv: GoBytes, aad: GoBytes, tagBits: nat)
    requires New(before, live, f, iv, aad, tagBits) && tagBits <= 128 && FitsWord(f.iv.p) && FitsWord(f.aad.p)
    ensures WordAt(live, f.gp, 0) == f.iv.p && WordAt(live, f.gp, 1) == |iv|
    ensures WordAt(live, f.gp, 2) == |iv| * 8 % 0x1_0000_0000_0000_0000
    ensures WordAt(live, f.gp, 3) == f.aad.p && WordAt(live, f.gp, 4) == |aad| && WordAt(live, f.gp, 5) == tagBits
  {
    ReadsAll(live, f.gp, ParamFields(f, tagBits));
  }

  /** Set the fields of a new parameter block. */
  method Fill(h: Heap, f: Fields, tagBits: nat, ghost before: map<Ptr, seq<Byte>>, ghost iv: seq<Byte>, ghost aad: seq<Byte>)
    requires h.Valid() && Sound(h.live, f) && f.gp != NULL && |h.live[f.gp]| == 48 && f.inUse == 0 && !f.freePending
    requires h.live - Blocks(f) == before && Blocks(f) !! before.Keys
    requires if iv == [] then f.iv == Buf(NULL, 0) else f.iv.p != NULL && h.live[f.iv.p] == iv
    requires if aad == [] then f.aad == Buf(NULL, 0) else f.aad.p != NULL && h.live[f.aad.p] == aad
    modifies h`live
    ensures h.Valid() && New(before, h.live, f, iv, aad, tagBits)
  {
    Store(h, f.gp, ParamFields(f, tagBits));
    assert h.live - Blocks(f) == old(h.live) - Blocks(f);
  }

  /** The allocations of NewGCMParams. */
  method Allocate(h: Heap, iv: GoBytes, aad: GoBytes) returns (f: Fields)
    requires h.Valid()
    modifies h
    ensures h.Valid() && Sound(h.live, f) && f.gp != NULL && f.inUse == 0 && !f.freePending && h.dirty == old(h.dirty)
    ensures h.live - Blocks(f) == old(h.live) && Blocks(f) !! old(h.live).Keys && |h.live[f.gp]| == 48
    ensures if iv == [] then f.iv == Buf(NULL, 0) else f.iv.p != NULL && h.live[f.iv.p] == iv
    ensures if aad == [] then f.aad == Buf(NULL, 0) else f.aad.p != NULL && h.live[f.aad.p] == aad
  {
    var gp := h.Malloc(GCM_PARAMS_SIZE);
    ghost var one := h.live;
    var p, n := h.CBytes(iv);
    ghost var two := h.live;
    var q, m := h.CBytes(aad);
    f := Fields(gp, Buf(p, n), Buf(q, m), 0, false);
    RemoveAdded(old(h.live), one, two, h.live, f);
  }

  /** The allocations of NewGCMParamsHSMIV. */
  method AllocateZeroed(h: Heap, ivLen: ULong, aad: GoBytes) returns (f: Fields)
    requires h.Valid() && 0 < ivLen
    modifies h
    ensures h.Valid() && Sound(h.live, f) && f.gp != NULL && f.inUse == 0 && !f.freePending && h.dirty == old(h.dirty)
    ensures h.live - Blocks(f) == old(h.live) && Blocks(f) !! old(h.live).Keys && |h.live[f.gp]| == 48
    ensures f.iv.p != NULL && h.live[f.iv.p] == Zeros(ivLen)
    ensures if aad == [] then f.aad == Buf(NULL, 0) else f.aad.p != NULL && h.live[f.aad.p] == aad
  {
    var gp := h.Malloc(GCM_PARAMS_SIZE);
    ghost var one := h.live;
    var p := h.Calloc(ivLen);
    ghost var two := h.live;
    var q, m := h.CBytes(aad);
    f := Fields(gp, Buf(p, ivLen), Buf(q, m), 0, false);
    RemoveAdded(old(h.live), one, two, h.live, f);
  }

  /** The object itself, over the C heap. */
  class GCMParams {
    var fields: Fields

    ghost predicate Valid(live: map<Ptr, seq<Byte>>)
      reads this
    {
      Sound(live, fields)
    }

    /** NewGCMParams; the panic on a bad tag length is the caller's requires. */
    constructor (h: Heap, iv: GoBytes, aad: GoBytes, tagBits: int)
      requires h.Valid() && 0 < tagBits <= 128 && tagBits % 8 == 0
      modifies h
      ensures h.Valid() && h.dirty == old(h.dirty) && Valid(h.live)
      ensures New(old(h.live), h.live, fields, iv, aad, tagBits)
    {
      var f := Allocate(h, iv, aad);
      Fill(h, f, tagBits, old(h.live), iv, aad);
      fields := f;
    }

    /** NewGCMParamsHSMIV: a zeroed buffer the token writes its nonce into. */
    constructor HsmIV(h: Heap, ivLen: ULong, aad: GoBytes, tagBits: int)
      requires h.Valid() && 0 < tagBits <= 128 && tagBits % 8 == 0 && 0 < ivLen
      modifies h
      ensures h.Valid() && h.dirty == old(h.dirty) && Valid(h.live)
      ensures New(old(h.live), h.live, fields, Zeros(ivLen), aad, tagBits)
    {
      var f := AllocateZeroed(h, ivLen, aad);
      Fill(h, f, tagBits, old(h.live), Zeros(ivLen), aad);
      fields := f;
    }

    /** build up to the unlock; false is the panic after Free. */
    method BuildLocked() returns (ok: bool)
      modifies this
      ensures ok == (old(fields).gp != NULL)
      ensures fields == if ok then Enter(old(fields)) else old(fields)
    {
      if fields.gp == NULL {
        return false;
      }
      fields := fields.(inUse := fields.inUse + 1);
      ok := true;
    }

    method FreeLockedBlocks(h: Heap)
      requires h.Valid() && Valid(h.live)
      modifies this, h
      ensures h.Valid() && Valid(h.live)
      ensures fields == FreeLocked(old(fields)).fields && h.live == old(h.live) - FreeLocked(old(fields)).released
      ensures old(h.dirty) <= h.dirty <= old(h.dirty) + {old(fields).gp}
    {
      if fields.gp == NULL {
        return;
      }
      RemoveBlocks(h.live, fields);
      h.ZFree(fields.iv.p, fields.iv.size);
      h.ZFree(fields.aad.p, fields.aad.size);
      h.Free(fields.gp);
      fields := Released(fields);
    }

    /** The cleanup of one build. */
    method Cleanup(h: Heap)
      requires h.Valid() && Valid(h.live)
      modifies this, h
      ensures h.Valid() && Valid(h.live)
      ensures fields == Leave(old(fields)).fields && h.live == old(h.live) - Leave(old(fields)).released
      ensures old(h.dirty) <= h.dirty <= old(h.dirty) + {old(fields).gp}
    {
      fields := fields.(inUse := fields.inUse - 1);
      if fields.inUse == 0 && fields.freePending {
        FreeLockedBlocks(h);
      }
    }

    method Free(h: Heap)
      requires h.Valid() && Valid(h.live)
      modifies this, h
      ensures h.Valid() && Valid(h.live)
      ensures fields == Request(old(fields)).fields && h.live == old(h.live) - Request(old(fields)).released
      ensures old(h.dirty) <= h.dirty <= old(h.dirty) + {old(fields).gp}
    {
      if fields.gp == NULL {
        return;
      }
      if fields.inUse > 0 {
        fields := fields.(freePending := true);
        return;
      }
      FreeLockedBlocks(h);
    }

    /** IV: the bytes now in the IV buffer, which the token may have written.
        The length passes through a C int; `ok` is false for the panic on a
        negative one. */
    method IV(h: Heap) returns (ok: bool, iv: seq<Byte>)
      requires h.Valid() && Valid(h.live)
      ensures ok <==> fields.gp == NULL || fields.iv.p == NULL || CInt(fields.iv.size) >= 0
      ensures iv <= if fields.gp == NULL || fields.iv.p == NULL then [] else h.live[fields.iv.p]
      ensures fields.gp != NULL && fields.iv.p != NULL ==>
                (iv == h.live[fields.iv.p] <==> fields.iv.size < 0x8000_0000)
    {
      CIntNeverExceeds(fields.iv.size);
      if fields.gp == NULL || fields.iv.p == NULL || fields.iv.size == 0 {
        return true, [];
      }
      var n := CInt(fields.iv.size);
      if n < 0 {
        return false, [];
      }
      return true, h.live[fields.iv.p][..n];
    }
  }
}
