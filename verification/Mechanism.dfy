/** Passing a mechanism to the module: the policy check of cryptoki/policy.go
  and the native memory of cMechanism (cryptoki/marshal.go). */
module Mechanism {
  import opened Common
  import opened CHeap
  import opened Marshal
  import opened Structs

  /** A flat parameter, or one of the structures with pointers in it. */
  datatype Params =
    | Raw(bytes: GoBytes)
    | Oaep(hashAlg: ULong, mgf: ULong, source: ULong, sourceData: GoBytes)
    | Pss(hashAlg: ULong, mgf: ULong, saltLen: ULong)
    | Ecdh1(kdf: ULong, sharedData: GoBytes, publicData: GoBytes)

  datatype Mechanism = Mechanism(mechanism: ULong, params: Params)

  /** The installed policy, if any, and the digests behind mask generation and
      key derivation functions. */
  datatype Policy = Policy(allow: Option<ULong -> bool>, mgfHash: map<ULong, ULong>, kdfHash: map<ULong, ULong>)

  predicate Allowed(p: Policy, mechanism: ULong) {
    p.allow.Some? ==> p.allow.value(mechanism)
  }

  function WithMgfHash(p: Policy, hashes: seq<ULong>, mgf: ULong): seq<ULong> {
    if mgf in p.mgfHash then hashes + [p.mgfHash[mgf]] else hashes
  }

  function HashMechanisms(p: Policy, params: Params): seq<ULong> {
    match params
    case Raw(_) => []
    case Oaep(hashAlg, mgf, _, _) => WithMgfHash(p, [hashAlg], mgf)
    case Pss(hashAlg, mgf, _) => WithMgfHash(p, [hashAlg], mgf)
    case Ecdh1(kdf, _, _) => if kdf in p.kdfHash then [p.kdfHash[kdf]] else []
  }

  /** A digest the operation would run on. */
  predicate RunsOn(p: Policy, params: Params, digest: ULong) {
    || ((params.Oaep? || params.Pss?) &&
        (digest == params.hashAlg || (params.mgf in p.mgfHash && digest == p.mgfHash[params.mgf])))
    || (params.Ecdh1? && params.kdf in p.kdfHash && digest == p.kdfHash[params.kdf])
  }

  lemma NamedDigests(p: Policy, params: Params, digest: ULong)
    ensures digest in HashMechanisms(p, params) <==> RunsOn(p, params, digest)
  {
  }

  /** The policy accepts the mechanism and every digest it runs on. */
  ghost predicate Accepts(p: Policy, m: Mechanism) {
    Allowed(p, m.mechanism) && forall d | RunsOn(p, m.params, d) :: Allowed(p, d)
  }

  /** The policy does not allow r, which is the mechanism or, where that is
      allowed, a digest it runs on. */
  predicate Rejects(p: Policy, m: Mechanism, r: ULong) {
    !Allowed(p, r) && (r == m.mechanism || (Allowed(p, m.mechanism) && RunsOn(p, m.params, r)))
  }

  /** Without a policy everything is accepted; with one, a mechanism without
      digests is accepted as the policy says. */
  lemma PolicyDecides(p: Policy, m: Mechanism)
    ensures p.allow.None? ==> Accepts(p, m)
    ensures p.allow.Some? && m.params.Raw? ==> (Accepts(p, m) <==> p.allow.value(m.mechanism))
  {
  }

  /** checkMechanismUse: None, or the first mechanism the policy rejects. It
      accepts exactly when the mechanism and every digest it runs on are. */
  method CheckMechanismUse(p: Policy, m: Mechanism) returns (rejected: Option<ULong>)
    ensures rejected.None? <==> Accepts(p, m)
    ensures rejected.Some? ==> Rejects(p, m, rejected.value)
    ensures !Allowed(p, m.mechanism) ==> rejected == Some(m.mechanism)
  {
    forall d ensures d in HashMechanisms(p, m.params) <==> RunsOn(p, m.params, d) {
      NamedDigests(p, m.params, d);
    }
    if !Allowed(p, m.mechanism) {
      return Some(m.mechanism);
    }
    var hashes := HashMechanisms(p, m.params);
    for i := 0 to |hashes|
      invariant forall k | 0 <= k < i :: Allowed(p, hashes[k])
    {
      if !Allowed(p, hashes[i]) {
        assert hashes[i] in hashes;
        return Some(hashes[i]);
      }
    }
    return None;
  }

  /** The fields of a parameter structure. */
  datatype Layout =
    | NoLayout
    | OaepLayout(hashAlg: ULong, mgf: ULong, source: ULong, pSourceData: Ptr, ulSourceDataLen: nat)
    | PssLayout(hashAlg: ULong, mgf: ULong, sLen: ULong)
    | Ecdh1Layout(kdf: ULong, ulSharedDataLen: nat, pSharedData: Ptr, ulPublicDataLen: nat, pPublicData: Ptr)

  /** The fields in the order of the C declarations. */
  function FieldsOf(l: Layout): seq<nat> {
    match l
    case NoLayout => []
    case OaepLayout(hashAlg, mgf, source, data, len) => [hashAlg, mgf, source, data, len]
    case PssLayout(hashAlg, mgf, sLen) => [hashAlg, mgf, sLen]
    case Ecdh1Layout(kdf, sharedLen, shared, publicLen, public) => [kdf, sharedLen, shared, publicLen, public]
  }

  /** sizeof of the structure. */
  function LayoutSize(l: Layout): nat {
    8 * |FieldsOf(l)|
  }

  /** A CK_MECHANISM, the parameter structure it points to, if it has one, the
      buffer its cleanup scrubs, and the buffer it only frees. */
  datatype Native =
    | NoMechanism
    | Native(self: Ptr, mechanism: ULong, pParameter: Ptr, ulParameterLen: nat,
             block: Ptr, layout: Layout, scrubbed: Buf, plain: Buf)

  function Blocks(n: Native): set<Ptr> {
    if n.NoMechanism? then {} else {n.self, n.block, n.scrubbed.p, n.plain.p}
  }

  predicate Holds(live: map<Ptr, seq<Byte>>, b: Buf, data: seq<Byte>) {
    if data == [] then b == Buf(NULL, 0) else b.p != NULL && b.p in live && live[b.p] == data && b.size == |data|
  }

  /** The CK_MECHANISM and the parameter structure are in memory. */
  predicate Stored(live: map<Ptr, seq<Byte>>, n: Native)
    requires n.Native?
  {
    && HoldsStruct(live, n.self, [n.mechanism, n.pParameter, n.ulParameterLen])
    && (n.block != NULL ==> HoldsStruct(live, n.block, FieldsOf(n.layout)))
  }

  /** The native mechanism carries the parameter: its pointer and length are
      those of the raw bytes or of the structure, and every field of the
      structure is set, the pointers to the copies of the data. */
  predicate Carries(live: map<Ptr, seq<Byte>>, n: Native, m: Mechanism) {
    && n.Native? && n.mechanism == m.mechanism && Stored(live, n)
    && match m.params
       case Raw(bytes) =>
         && n.block == NULL && n.layout.NoLayout? && Holds(live, n.scrubbed, bytes) && n.plain == Buf(NULL, 0)
         && n.pParameter == n.scrubbed.p && n.ulParameterLen == |bytes|
       case Oaep(hashAlg, mgf, source, data) =>
         && n.pParameter == n.block != NULL && n.ulParameterLen == |live[n.block]| == 40
         && n.layout == OaepLayout(hashAlg, mgf, source, n.plain.p, |data|)
         && Holds(live, n.plain, data) && n.scrubbed == Buf(NULL, 0)
       case Pss(hashAlg, mgf, saltLen) =>
         && n.pParameter == n.block != NULL && n.ulParameterLen == |live[n.block]| == 24
         && n.layout == PssLayout(hashAlg, mgf, saltLen)
         && n.plain == Buf(NULL, 0) == n.scrubbed
       case Ecdh1(kdf, shared, public) =>
         && n.pParameter == n.block != NULL && n.ulParameterLen == |live[n.block]| == 40
         && n.layout == Ecdh1Layout(kdf, |shared|, n.scrubbed.p, |public|, n.plain.p)
         && Holds(live, n.scrubbed, shared) && Holds(live, n.plain, public)
  }

  /** What the module reads, word by word, when addresses fit a word. */
  predicate Reads(live: map<Ptr, seq<Byte>>, n: Native, m: Mechanism)
    requires n.Native?
  {
    var b := n.block;
    && WordAt(live, n.self, 0) == m.mechanism
    && match m.params
       case Raw(bytes) =>
         WordAt(live, n.self, 1) == n.scrubbed.p && WordAt(live, n.self, 2) == |bytes|
       case Oaep(hashAlg, mgf, source, data) =>
         && WordAt(live, n.self, 1) == b && WordAt(live, n.self, 2) == 40
         && WordAt(live, b, 0) == hashAlg && WordAt(live, b, 1) == mgf && WordAt(live, b, 2) == source
         && WordAt(live, b, 3) == n.plain.p && WordAt(live, b, 4) == |data|
       case Pss(hashAlg, mgf, saltLen) =>
         && WordAt(live, n.self, 1) == b && WordAt(live, n.self, 2) == 24
         && WordAt(live, b, 0) == hashAlg && WordAt(live, b, 1) == mgf && WordAt(live, b, 2) == saltLen
       case Ecdh1(kdf, shared, public) =>
         && WordAt(live, n.self, 1) == b && WordAt(live, n.self, 2) == 40
         && WordAt(live, b, 0) == kdf && WordAt(live, b, 1) == |shared| && WordAt(live, b, 2) == n.scrubbed.p
         && WordAt(live, b, 3) == |public| && WordAt(live, b, 4) == n.plain.p
  }

  /** Each field is read at its place in the C declaration. */
  lemma CarriedIsRead(live: map<Ptr, seq<Byte>>, n: Native, m: Mechanism)
    requires Carries(live, n, m) && FitsWord(n.block) && FitsWord(n.scrubbed.p) && FitsWord(n.plain.p)
    ensures Reads(live, n, m)
  {
    ReadsAll(live, n.self, [n.mechanism, n.pParameter, n.ulParameterLen]);
    if n.block != NULL {
      ReadsAll(live, n.block, FieldsOf(n.layout));
    }
  }

  /** The blocks of n are exactly what `after` holds beyond `before`. */
  predicate Attached(before: map<Ptr, seq<Byte>>, after: map<Ptr, seq<Byte>>, n: Native) {
    && NULL !in after && after - Blocks(n) == before
    && (n.Native? ==>
          && n.self in after
          && (n.block != NULL ==> n.block in after && n.block != n.self)
          && (n.scrubbed.p != NULL ==> n.scrubbed.p in after && |after[n.scrubbed.p]| == n.scrubbed.size)
          && (n.scrubbed.p != NULL ==> n.scrubbed.p != n.self && n.scrubbed.p != n.block)
          && (n.plain.p != NULL ==> n.plain.p in after && n.plain.p != n.self)
          && (n.plain.p != NULL ==> n.plain.p != n.block && n.plain.p != n.scrubbed.p))
  }

  /** cMechanism. A rejected mechanism allocates nothing. */
  method Build(h: Heap, p: Policy, m: Option<Mechanism>) returns (rejected: Option<ULong>, n: Native)
    requires h.Valid()
    modifies h
    ensures h.Valid() && h.dirty == old(h.dirty) && old(h.next) <= h.next
    ensures Attached(old(h.live), h.live, n)
    ensures m.None? ==> rejected.None? && n.NoMechanism?
    ensures m.Some? ==> (rejected.None? <==> Accepts(p, m.value))
    ensures m.Some? && rejected.None? ==> Carries(h.live, n, m.value)
    ensures m.Some? && !Allowed(p, m.value.mechanism) ==> rejected == Some(m.value.mechanism)
    ensures m.Some? && rejected.Some? ==> Rejects(p, m.value, rejected.value)
    ensures rejected.Some? ==> n.NoMechanism? && h.next == old(h.next)
  {
    if m.None? {
      return None, NoMechanism;
    }
    rejected := CheckMechanismUse(p, m.value);
    if rejected.Some? {
      return rejected, NoMechanism;
    }
    var self := h.Malloc(24);
    n := BuildParams(h, m.value, self, old(h.live));
  }

  predicate Keeps(before: map<Ptr, seq<Byte>>, after: map<Ptr, seq<Byte>>) {
    forall p | p in before :: p in after && after[p] == before[p]
  }

  /** Copy a buffer the cleanup scrubs. */
  method AddScrubbed(h: Heap, n: Native, bytes: GoBytes, ghost before: map<Ptr, seq<Byte>>) returns (after: Native)
    requires h.Valid() && Attached(before, h.live, n) && n.Native? && n.scrubbed == Buf(NULL, 0)
    modifies h
    ensures h.Valid() && h.dirty == old(h.dirty) && old(h.next) <= h.next
    ensures Attached(before, h.live, after) && after.Native? && after == n.(scrubbed := after.scrubbed) && Holds(h.live, after.scrubbed, bytes)
    ensures Keeps(old(h.live), h.live)
  {
    var p, len := h.CBytes(bytes);
    after := n.(scrubbed := Buf(p, len));
    assert p != NULL ==> Blocks(after) - {NULL} == Blocks(n) - {NULL} + {p};
  }

  /** Copy a buffer the cleanup only frees. */
  method AddPlain(h: Heap, n: Native, bytes: GoBytes, ghost before: map<Ptr, seq<Byte>>) returns (after: Native)
    requires h.Valid() && Attached(before, h.live, n) && n.Native? && n.plain == Buf(NULL, 0)
    modifies h
    ensures h.Valid() && h.dirty == old(h.dirty) && old(h.next) <= h.next
    ensures Attached(before, h.live, after) && after.Native? && after == n.(plain := after.plain) && Holds(h.live, after.plain, bytes)
    ensures Keeps(old(h.live), h.live)
  {
    var p, len := h.CBytes(bytes);
    after := n.(plain := Buf(p, len));
    assert p != NULL ==> Blocks(after) - {NULL} == Blocks(n) - {NULL} + {p};
  }

  /** Allocate a parameter structure. */
  method AddBlock(h: Heap, n: Native, size: nat, ghost before: map<Ptr, seq<Byte>>) returns (after: Native)
    requires h.Valid() && Attached(before, h.live, n) && n.Native? && n.block == NULL && 0 < size
    modifies h
    ensures h.Valid() && h.dirty == old(h.dirty) && old(h.next) <= h.next
    ensures Attached(before, h.live, after) && after.Native? && after == n.(block := after.block) && after.block != NULL
    ensures Keeps(old(h.live), h.live) && |h.live[after.block]| == size
  {
    var p := h.Malloc(size);
    after := n.(block := p);
    assert Blocks(after) - {NULL} == Blocks(n) - {NULL} + {p};
  }

  lemma StillAttached(before: map<Ptr, seq<Byte>>, live: map<Ptr, seq<Byte>>, after: map<Ptr, seq<Byte>>, n: Native, p: Ptr)
    requires Attached(before, live, n) && n.Native? && (p == n.self || p == n.block) && p in live
    requires after.Keys == live.Keys && forall q | q in live && q != p :: after[q] == live[q]
    ensures Attached(before, after, n)
  {
    assert after - Blocks(n) == live - Blocks(n);
  }

  /** Set the fields, once everything they point to is there. */
  method Finish(h: Heap, n: Native, pParameter: Ptr, ulParameterLen: nat, layout: Layout, ghost before: map<Ptr, seq<Byte>>)
    returns (after: Native)
    requires h.Valid() && Attached(before, h.live, n) && n.Native? && |h.live[n.self]| == 24
    requires n.block != NULL ==> |h.live[n.block]| == LayoutSize(layout)
    modifies h`live
    ensures h.Valid() && after == n.(pParameter := pParameter, ulParameterLen := ulParameterLen, layout := layout)
    ensures Attached(before, h.live, after) && Stored(h.live, after)
    ensures forall p | p in old(h.live) && p != n.self && p != n.block :: p in h.live && h.live[p] == old(h.live)[p]
  {
    after := n.(pParameter := pParameter, ulParameterLen := ulParameterLen, layout := layout);
    assert Attached(before, h.live, after);
    Store(h, n.self, [n.mechanism, pParameter, ulParameterLen]);
    StillAttached(before, old(h.live), h.live, after, n.self);
    if n.block != NULL {
      ghost var live := h.live;
      Store(h, n.block, FieldsOf(layout));
      StillAttached(before, live, h.live, after, n.block);
    }
  }

  /** A CK_MECHANISM whose parameter is not there yet. */
  ghost predicate Begun(h: Heap, n: Native, mechanism: ULong, before: map<Ptr, seq<Byte>>)
    reads h
  {
    && h.Valid() && n.Native? && n.self in h.live && |h.live[n.self]| == 24 && h.live - {n.self} == before
    && n == Native(n.self, mechanism, NULL, 0, NULL, NoLayout, Buf(NULL, 0), Buf(NULL, 0))
  }

  /** The raw parameter bytes. */
  method BuildRaw(h: Heap, n0: Native, mechanism: ULong, bytes: GoBytes, ghost before: map<Ptr, seq<Byte>>) returns (n: Native)
    requires Begun(h, n0, mechanism, before)
    modifies h
    ensures h.Valid() && h.dirty == old(h.dirty) && old(h.next) <= h.next
    ensures Attached(before, h.live, n) && Carries(h.live, n, Mechanism(mechanism, Raw(bytes)))
  {
    n := AddScrubbed(h, n0, bytes, before);
    n := Finish(h, n, n.scrubbed.p, n.scrubbed.size, NoLayout, before);
  }

  method BuildOaep(h: Heap, n0: Native, mechanism: ULong, hashAlg: ULong, mgf: ULong, source: ULong, data: GoBytes,
                   ghost before: map<Ptr, seq<Byte>>) returns (n: Native)
    requires Begun(h, n0, mechanism, before)
    modifies h
    ensures h.Valid() && h.dirty == old(h.dirty) && old(h.next) <= h.next
    ensures Attached(before, h.live, n) && Carries(h.live, n, Mechanism(mechanism, Oaep(hashAlg, mgf, source, data)))
  {
    n := AddBlock(h, n0, 40, before);
    n := AddPlain(h, n, data, before);
    n := Finish(h, n, n.block, 40, OaepLayout(hashAlg, mgf, source, n.plain.p, n.plain.size), before);
  }

  method BuildPss(h: Heap, n0: Native, mechanism: ULong, hashAlg: ULong, mgf: ULong, saltLen: ULong,
                  ghost before: map<Ptr, seq<Byte>>) returns (n: Native)
    requires Begun(h, n0, mechanism, before)
    modifies h
    ensures h.Valid() && h.dirty == old(h.dirty) && old(h.next) <= h.next
    ensures Attached(before, h.live, n) && Carries(h.live, n, Mechanism(mechanism, Pss(hashAlg, mgf, saltLen)))
  {
    n := AddBlock(h, n0, 24, before);
    n := Finish(h, n, n.block, 24, PssLayout(hashAlg, mgf, saltLen), before);
  }

  method BuildEcdh1(h: Heap, n0: Native, mechanism: ULong, kdf: ULong, shared: GoBytes, public: GoBytes,
                    ghost before: map<Ptr, seq<Byte>>) returns (n: Native)
    requires Begun(h, n0, mechanism, before)
    modifies h
    ensures h.Valid() && h.dirty == old(h.dirty) && old(h.next) <= h.next
    ensures Attached(before, h.live, n) && Carries(h.live, n, Mechanism(mechanism, Ecdh1(kdf, shared, public)))
  {
    n := AddBlock(h, n0, 40, before);
    n := AddScrubbed(h, n, shared, before);
    n := AddPlain(h, n, public, before);
    n := Finish(h, n, n.block, 40, Ecdh1Layout(kdf, n.scrubbed.size, n.scrubbed.p, n.plain.size, n.plain.p), before);
  }

  /** The build method of each parameter kind. */
  method BuildParams(h: Heap, m: Mechanism, self: Ptr, ghost before: map<Ptr, seq<Byte>>) returns (n: Native)
    requires h.Valid() && self in h.live && |h.live[self]| == 24 && h.live - {self} == before
    modifies h
    ensures h.Valid() && h.dirty == old(h.dirty) && old(h.next) <= h.next
    ensures Attached(before, h.live, n) && Carries(h.live, n, m)
  {
    n := Native(self, m.mechanism, NULL, 0, NULL, NoLayout, Buf(NULL, 0), Buf(NULL, 0));
    match m.params
    case Raw(bytes) => n := BuildRaw(h, n, m.mechanism, bytes, before);
    case Oaep(hashAlg, mgf, source, data) => n := BuildOaep(h, n, m.mechanism, hashAlg, mgf, source, data, before);
    case Pss(hashAlg, mgf, saltLen) => n := BuildPss(h, n, m.mechanism, hashAlg, mgf, saltLen, before);
    case Ecdh1(kdf, shared, public) => n := BuildEcdh1(h, n, m.mechanism, kdf, shared, public, before);
  }

  lemma RemoveInTurn(live: map<Ptr, seq<Byte>>, a: Ptr, b: Ptr, c: Ptr, d: Ptr)
    ensures live - {a} - {b} - {c} - {d} == live - {d, c, a, b}
  {
  }

  /** The cleanup of the parameter: its buffers and its structure. */
  method FreeParams(h: Heap, n: Native)
    requires h.Valid() && n.Native? && Attached(h.live - Blocks(n), h.live, n)
    modifies h
    ensures h.Valid() && h.live == old(h.live) - {n.scrubbed.p} - {n.plain.p} - {n.block} && h.next == old(h.next)
    ensures old(h.dirty) <= h.dirty <= old(h.dirty) + {n.block, n.plain.p}
  {
    h.ZFree(n.scrubbed.p, n.scrubbed.size);
    h.FreeGuarded(n.plain.p);
    h.FreeGuarded(n.block);
  }

  /** The cleanup cMechanism returns: everything is given back once, and the
      raw parameter or shared data is scrubbed first. */
  method FreeMechanism(h: Heap, n: Native, ghost before: map<Ptr, seq<Byte>>)
    requires h.Valid() && Attached(before, h.live, n)
    modifies h
    ensures h.Valid() && h.live == before && h.next == old(h.next)
    ensures old(h.dirty) <= h.dirty
    ensures n.NoMechanism? ==> h.dirty == old(h.dirty)
    ensures n.Native? ==> h.dirty <= old(h.dirty) + {n.self, n.block, n.plain.p}
  {
    if n.NoMechanism? {
      return;
    }
    RemoveInTurn(h.live, n.scrubbed.p, n.plain.p, n.block, n.self);
    FreeParams(h, n);
    h.Free(n.self);
  }
}
