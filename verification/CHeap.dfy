/** The C heap the binding marshals through.

  Addresses are natural numbers, 0 is NULL, and an address is handed out once
  and never reused, so "given back exactly once" is a statement about one
  number. The preconditions of the methods are the memory-safety rules of C: no
  write or read past a block, no use after free, no double free. */
module CHeap {
  type Byte = b: int | 0 <= b < 256
  type ULong = n: int | 0 <= n < 0x1_0000_0000_0000_0000
  type Ptr = nat

  /** The bytes of a Go slice. */
  type GoBytes = s: seq<Byte> | |s| < 0x8000_0000_0000_0000

  const NULL: Ptr := 0

  predicate Zeroed(s: seq<Byte>) {
    forall i | 0 <= i < |s| :: s[i] == 0
  }

  function Zeros(n: nat): seq<Byte> {
    seq(n, i => 0)
  }

  /** The contents of a block after a callee was told it may write `room` bytes
      and tried to write `data`. */
  function Written(block: seq<Byte>, room: nat, data: seq<Byte>): (after: seq<Byte>)
    requires room <= |block|
    ensures |after| == |block|
    ensures after[room..] == block[room..]
    ensures |data| <= room ==> data <= after
  {
    var k := if |data| <= room then |data| else room;
    data[..k] + block[k..]
  }

  /** C.int of a CK_ULONG: the low 32 bits as a signed number. */
  function CInt(n: ULong): int {
    var low := n % 0x1_0000_0000;
    if low < 0x8000_0000 then low else low - 0x1_0000_0000
  }

  /** The conversion never makes a copy longer than the length it came from,
      and is exact below 2^31 and nowhere else. */
  lemma CIntNeverExceeds(n: ULong)
    ensures CInt(n) <= n && CInt(n) < 0x8000_0000
    ensures CInt(n) == n <==> n < 0x8000_0000
  {
    assert n == 0x1_0000_0000 * (n / 0x1_0000_0000) + n % 0x1_0000_0000;
  }

  class Heap {
    /** What uninitialised memory happens to hold, by address and offset. */
    const junk: (Ptr, nat) -> Byte
    /** The blocks that are allocated now. */
    var live: map<Ptr, seq<Byte>>
    /** Every address handed out so far is below `next`. */
    var next: Ptr
    /** The size each address was allocated with. */
    ghost var sizes: map<Ptr, nat>
    /** How often each address was given back. */
    ghost var freed: multiset<Ptr>
    /** The addresses given back while some byte of the block was not zero. */
    ghost var dirty: set<Ptr>

    /** Live blocks have kept their allocated size and were never given back;
        every other address handed out was given back exactly once. */
    ghost predicate Valid()
      reads this
    {
      && 0 < next
      && (forall p: Ptr :: p in sizes <==> 0 < p < next)
      && (forall p | p in live :: 0 < p < next && |live[p]| == sizes[p])
      && (forall p: Ptr :: freed[p] == if 0 < p < next && p !in live then 1 else 0)
    }

    /** What a fresh block of n bytes at p holds. */
    function Junk(p: Ptr, n: nat): (block: seq<Byte>)
      ensures |block| == n
    {
      seq(n, i requires 0 <= i => junk(p, i))
    }

    constructor (junk: (Ptr, nat) -> Byte)
      ensures Valid() && live == map[] && dirty == {} && next == 1 && this.junk == junk
    {
      this.junk := junk;
      live, next := map[], 1;
      sizes, freed, dirty := map[], multiset{}, {};
    }

    /** cMalloc: the contents are whatever was there. */
    method Malloc(n: nat) returns (p: Ptr)
      requires Valid() && 0 < n
      modifies this
      ensures Valid() && p == old(next) && next == p + 1
      ensures live == old(live)[p := Junk(p, n)]
      ensures sizes == old(sizes)[p := n] && dirty == old(dirty)
    {
      p := next;
      live := live[p := Junk(p, n)];
      sizes := sizes[p := n];
      next := next + 1;
    }

    /** C.calloc for one element of n bytes. */
    method Calloc(n: nat) returns (p: Ptr)
      requires Valid() && 0 < n
      modifies this
      ensures Valid() && p == old(next) && next == p + 1
      ensures live == old(live)[p := Zeros(n)]
      ensures sizes == old(sizes)[p := n] && dirty == old(dirty)
    {
      p := Malloc(n);
      live := live[p := Zeros(n)];
    }

    /** cBytes: NULL and 0 for an empty slice. */
    method CBytes(b: GoBytes) returns (p: Ptr, n: ULong)
      requires Valid()
      modifies this
      ensures Valid() && n == |b| && dirty == old(dirty)
      ensures b == [] ==> p == NULL && next == old(next) && live == old(live) && sizes == old(sizes)
      ensures b != [] ==> p == old(next) && next == p + 1 && live == old(live)[p := b] && sizes == old(sizes)[p := |b|]
    {
      if b == [] {
        return NULL, 0;
      }
      p := Malloc(|b|);
      live := live[p := b];
      n := |b|;
    }

    /** cInput: a valid pointer even for an empty slice. */
    method CInput(b: GoBytes) returns (p: Ptr, n: ULong)
      requires Valid()
      modifies this
      ensures Valid() && n == |b| && dirty == old(dirty)
      ensures p == old(next) && next == p + 1 && p in live && b <= live[p]
      ensures |live[p]| == (if b == [] then 1 else |b|)
      ensures live == old(live)[p := live[p]] && sizes == old(sizes)[p := |live[p]|]
    {
      if b == [] {
        p := Malloc(1);
        return p, 0;
      }
      p := Malloc(|b|);
      live := live[p := b];
      n := |b|;
    }

    /** C.free of a non-NULL pointer. */
    method Free(p: Ptr)
      requires Valid() && p in live
      modifies this
      ensures Valid() && live == old(live) - {p} && next == old(next) && sizes == old(sizes)
      ensures dirty == if Zeroed(old(live)[p]) then old(dirty) else old(dirty) + {p}
    {
      dirty := if Zeroed(live[p]) then dirty else dirty + {p};
      freed := freed[p := freed[p] + 1];
      live := live - {p};
    }

    /** free: C.free guarded against NULL. */
    method FreeGuarded(p: Ptr)
      requires Valid() && (p != NULL ==> p in live)
      modifies this
      ensures Valid() && live == old(live) - {p} && next == old(next) && sizes == old(sizes)
      ensures old(dirty) <= dirty <= old(dirty) + {p} && (p == NULL ==> dirty == old(dirty))
    {
      if p != NULL {
        Free(p);
      }
    }

    /** zfree: scrub n bytes at p and free it; nothing on NULL. */
    method ZFree(p: Ptr, n: nat)
      requires Valid() && (p == NULL || (p in live && n <= |live[p]|))
      modifies this
      ensures Valid() && live == old(live) - {p} && next == old(next) && sizes == old(sizes)
      ensures p != NULL && n == |old(live)[p]| ==> dirty == old(dirty)
      ensures old(dirty) <= dirty <= old(dirty) + {p}
      ensures p == NULL ==> dirty == old(dirty)
    {
      if p == NULL {
        return;
      }
      if n > 0 {
        live := live[p := Zeros(n) + live[p][n..]];
      }
      Free(p);
    }

    /** Native code writing through a pointer it was given `room` bytes of. */
    method Write(p: Ptr, room: nat, data: seq<Byte>)
      requires Valid() && p in live && room <= |live[p]|
      modifies this`live
      ensures Valid() && live == old(live)[p := Written(old(live)[p], room, data)]
    {
      live := live[p := Written(live[p], room, data)];
    }
  }
}
