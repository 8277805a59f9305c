/** A mechanism with a GCM parameter: cMechanism on a GCMParams, which keeps the
  parameter block when the mechanism is given back (cryptoki/marshal.go,
  params.go). */
module GcmMechanism {
  import opened Common
  import opened CHeap
  import opened Structs
  import Gcm
  import Mechanism

  /** The CK_MECHANISM, which points to the parameter block of the object. */
  datatype Native = Native(self: Ptr, mechanism: ULong, pParameter: Ptr, ulParameterLen: nat)

  datatype Built = Rejected | Panicked | Built(n: Native)

  /** cMechanism. The policy decides first, over the mechanism alone; a released
      object makes build panic, which leaves the mechanism allocated; otherwise one
      more build is outstanding, and the mechanism is all that was allocated. */
  method Build(h: Heap, p: Mechanism.Policy, mechanism: ULong, gcm: Gcm.GCMParams) returns (r: Built)
    requires h.Valid() && gcm.Valid(h.live)
    modifies h, gcm
    ensures h.Valid() && gcm.Valid(h.live) && h.dirty == old(h.dirty)
    ensures r.Rejected? <==> !Mechanism.Allowed(p, mechanism)
    ensures r.Panicked? <==> Mechanism.Allowed(p, mechanism) && old(gcm.fields).gp == NULL
    ensures r.Rejected? ==> h.live == old(h.live) && gcm.fields == old(gcm.fields)
    ensures r.Panicked? ==> h.live - {old(h.next)} == old(h.live) && old(h.next) in h.live && gcm.fields == old(gcm.fields)
    ensures r.Built? ==>
              && r.n == Native(old(h.next), mechanism, gcm.fields.gp, Gcm.GCM_PARAMS_SIZE)
              && gcm.fields == Gcm.Enter(old(gcm.fields)) && gcm.fields.gp in h.live
              && HoldsStruct(h.live, r.n.self, [mechanism, gcm.fields.gp, 48])
              && r.n.self !in Gcm.Blocks(gcm.fields) && h.live - {r.n.self} == old(h.live)
  {
    if !Mechanism.Allowed(p, mechanism) {
      return Rejected;
    }
    var self := h.Malloc(24);
    assert h.live - {self} == old(h.live);
    var ok := gcm.BuildLocked();
    if !ok {
      return Panicked;
    }
    Store(h, self, [mechanism, gcm.fields.gp, Gcm.GCM_PARAMS_SIZE]);
    assert h.live - {self} == old(h.live);
    r := Built(Native(self, mechanism, gcm.fields.gp, Gcm.GCM_PARAMS_SIZE));
  }

  /** The cleanup: the build is no longer outstanding, which releases the object
      when that was due, and the mechanism is given back. */
  method Free(h: Heap, n: Native, gcm: Gcm.GCMParams)
    requires h.Valid() && gcm.Valid(h.live) && n.self in h.live && n.self !in Gcm.Blocks(gcm.fields)
    modifies h, gcm
    ensures h.Valid() && gcm.Valid(h.live) && gcm.fields == Gcm.Leave(old(gcm.fields)).fields
    ensures h.live == old(h.live) - Gcm.Leave(old(gcm.fields)).released - {n.self}
  {
    gcm.Cleanup(h);
    h.Free(n.self);
  }

  /** A whole use by one Init call: the object and the heap are as they were,
      unless a release had been requested and this was the last build. */
  method Use(h: Heap, p: Mechanism.Policy, mechanism: ULong, gcm: Gcm.GCMParams) returns (ok: bool)
    requires h.Valid() && gcm.Valid(h.live) && gcm.fields.gp != NULL
    modifies h, gcm
    ensures h.Valid() && gcm.Valid(h.live) && (ok <==> Mechanism.Allowed(p, mechanism))
    ensures !(ok && old(gcm.fields).freePending && old(gcm.fields).inUse == 0) ==>
              h.live == old(h.live) && gcm.fields == old(gcm.fields)
    ensures ok && old(gcm.fields).freePending && old(gcm.fields).inUse == 0 ==>
              h.live == old(h.live) - Gcm.Blocks(old(gcm.fields)) && gcm.fields.gp == NULL
  {
    var r := Build(h, p, mechanism, gcm);
    if r.Built? {
      Free(h, r.n, gcm);
    }
    ok := r.Built?;
  }
}
