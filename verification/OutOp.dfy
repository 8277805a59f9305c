/** The two-pass output protocol of section 5.2 of OASIS PKCS #11 v3.2, as the
  binding drives it (cryptoki/marshal.go).

  The module is a partner that may answer anything: `script` is an arbitrary
  function from the number of a call and the request to a reply, and every
  statement below holds for each of them. What a module promises when it follows
  the standard is a predicate on the recorded exchanges, never an assumption of
  the method. */
module OutOp {
  import opened Common
  import opened CHeap

  const CKR_BUFFER_TOO_SMALL: ULong := 0x150
  const MAX_RETRIES: nat := 8

  /** One native call: a sizing pass carries the NULL pointer, a data pass a
      buffer of which the module may write `room` bytes. */
  datatype Request = Sizing(len: ULong) | DataPass(room: ULong, buffer: seq<Byte>)
  datatype Reply = Reply(rv: ULong, len: ULong, data: seq<Byte>)
  datatype Exchange = Exchange(request: Request, reply: Reply)

  datatype Error = Refused(rv: ULong) | TooLarge(size: ULong) | Overrun(size: ULong, capacity: nat) | Exhausted
  datatype Result = Ok(value: seq<Byte>) | Err(error: Error)

  /** The native function behind one output operation. */
  class Module {
    const script: (nat, Request) -> Reply
    var calls: seq<Exchange>

    constructor (script: (nat, Request) -> Reply)
      ensures calls == [] && this.script == script
    {
      this.script := script;
      calls := [];
    }

    /** The exchange that answers a request now. */
    function Answer(request: Request): Exchange
      reads this
    {
      Exchange(request, script(|calls|, request))
    }

    method Call(h: Heap, out: Ptr, len: ULong) returns (rv: ULong, newLen: ULong, ghost e: Exchange)
      requires h.Valid() && (out == NULL || (out in h.live && len <= |h.live[out]|))
      modifies this, h`live
      ensures h.Valid() && calls == old(calls) + [e] && rv == e.reply.rv && newLen == e.reply.len
      ensures e == old(Answer(if out == NULL then Sizing(len) else DataPass(len, h.live[out])))
      ensures h.live == if out == NULL then old(h.live) else old(h.live)[out := Written(old(h.live)[out], len, e.reply.data)]
    {
      var exchange := Answer(if out == NULL then Sizing(len) else DataPass(len, h.live[out]));
      calls := calls + [exchange];
      if out != NULL {
        h.Write(out, len, exchange.reply.data);
      }
      rv, newLen, e := exchange.reply.rv, exchange.reply.len, exchange;
    }
  }

  /** The replies of a run are those the module gives from its call number
      `start` on. */
  predicate Answered(script: (nat, Request) -> Reply, start: nat, run: seq<Exchange>) {
    forall i | 0 <= i < |run| :: run[i].reply == script(start + i, run[i].request)
  }

  /** The buffer of every data pass is a fresh block. */
  predicate FreshBuffers(h: Heap, first: Ptr, run: seq<Exchange>) {
    forall i | 1 <= i < |run| :: run[i].request.DataPass? &&
      run[i].request.buffer == h.Junk(first + i - 1, |run[i].request.buffer|)
  }

  /** The size a data pass allocates when the module asked for n bytes. */
  function Allocation(n: nat): nat {
    if n == 0 then 1 else n
  }

  /** Exchange i is a data pass that offers exactly the length the exchange
      before it reported, in a buffer of that size (one byte when it is zero),
      within the limit. */
  predicate OfferFollows(run: seq<Exchange>, i: nat)
    requires 0 < i < |run|
  {
    && run[i].request.DataPass?
    && run[i].request.room == run[i - 1].reply.len <= MAX_OUT_BUF
    && |run[i].request.buffer| == Allocation(run[i].request.room)
  }

  /** The run opens with a NULL buffer and length 0. */
  predicate Offers(run: seq<Exchange>) {
    && run != [] && run[0].request == Sizing(0)
    && forall i | 1 <= i < |run| :: OfferFollows(run, i)
  }

  /** Exchange i asks for another pass: a successful sizing pass or a data pass
      that found the buffer too small, with a length within the limit. */
  predicate AsksAgain(run: seq<Exchange>, i: nat)
    requires i < |run|
  {
    && run[i].reply.rv == (if i == 0 then CKR_OK else CKR_BUFFER_TOO_SMALL)
    && run[i].reply.len <= MAX_OUT_BUF
  }

  /** Every exchange but the last asked for another pass. */
  predicate Pending(run: seq<Exchange>) {
    forall i | 0 <= i < |run| - 1 :: AsksAgain(run, i)
  }

  /** What is known of a run from its first exchange on. */
  predicate Ongoing(h: Heap, first: Ptr, script: (nat, Request) -> Reply, start: nat, run: seq<Exchange>) {
    Offers(run) && Pending(run) && Answered(script, start, run) && FreshBuffers(h, first, run)
  }

  lemma Extend(h: Heap, first: Ptr, script: (nat, Request) -> Reply, start: nat, run: seq<Exchange>, e: Exchange)
    requires Ongoing(h, first, script, start, run) && AsksAgain(run, |run| - 1)
    requires var room := run[|run| - 1].reply.len;
             e.request == DataPass(room, h.Junk(first + |run| - 1, Allocation(room)))
    requires e.reply == script(start + |run|, e.request)
    ensures Ongoing(h, first, script, start, run + [e])
  {
    var longer := run + [e];
    forall i | 1 <= i < |longer| ensures OfferFollows(longer, i) {
      if i < |run| {
        assert OfferFollows(run, i);
      }
    }
    forall i | 0 <= i < |run| ensures AsksAgain(longer, i) {
      assert AsksAgain(run, i);
    }
  }

  /** A whole run of outOp: it goes on exactly as long as it is asked to and
      at most MAX_RETRIES data passes are left. */
  predicate Run(run: seq<Exchange>) {
    && Offers(run)
    && Pending(run)
    && |run| <= 1 + MAX_RETRIES
    && (AsksAgain(run, |run| - 1) ==> |run| == 1 + MAX_RETRIES)
  }

  /** What the caller of outOp gets for a run. */
  function Outcome(run: seq<Exchange>): Result
    requires Offers(run)
  {
    var last := run[|run| - 1];
    if |run| == 1 then
      if last.reply.rv != CKR_OK then Err(Refused(last.reply.rv)) else Err(TooLarge(last.reply.len))
    else if last.reply.rv == CKR_BUFFER_TOO_SMALL then
      if last.reply.len > MAX_OUT_BUF then Err(TooLarge(last.reply.len)) else Err(Exhausted)
    else if last.reply.rv != CKR_OK then Err(Refused(last.reply.rv))
    else (
      assert OfferFollows(run, |run| - 1);
      if last.reply.len > |last.request.buffer| then Err(Overrun(last.reply.len, |last.request.buffer|))
      else Ok(Written(last.request.buffer, last.request.room, last.reply.data)[..last.reply.len])
    )
  }

  /** What the caller gets, in terms of the last reply alone: its code when that
      is neither success nor, in a data pass, the code for a buffer that is too
      small; its length when that is beyond 64 MiB where another pass was asked
      for; its length and the allocation when a success reports more than that. */
  predicate Explained(r: Result, run: seq<Exchange>) {
    run != [] &&
    var e, n := run[|run| - 1], |run|;
    var rv, len := e.reply.rv, e.reply.len;
    && (n > 1 ==> e.request.DataPass?)
    && match r
       case Ok(value) => n > 1 && rv == 0 && |value| == len <= |e.request.buffer|
       case Err(Refused(code)) => code == rv != 0 && (n > 1 ==> rv != 0x150)
       case Err(TooLarge(size)) => size == len > 67108864 && rv == (if n == 1 then 0 else 0x150)
       case Err(Overrun(size, capacity)) => n > 1 && rv == 0 && size == len > capacity == |e.request.buffer|
       case Err(Exhausted) => n == 9 && rv == 0x150 && len <= 67108864
  }

  predicate OfferedAt(run: seq<Exchange>, i: nat)
    requires 0 < i < |run|
  {
    && run[i].request.DataPass? && run[i].request.room == run[i - 1].reply.len <= 67108864
    && |run[i].request.buffer| == (if run[i].request.room == 0 then 1 else run[i].request.room)
  }

  /** At most one sizing and eight data passes, and no data pass is offered more
      than 64 MiB or anything but the length reported before it. */
  predicate Bounded(run: seq<Exchange>) {
    && 1 <= |run| <= 9 && run[0].request == Sizing(0)
    && forall i | 1 <= i < |run| :: OfferedAt(run, i)
  }

  lemma RunIsExplained(run: seq<Exchange>)
    requires Run(run)
    ensures Explained(Outcome(run), run) && Bounded(run)
  {
    forall i | 1 <= i < |run| ensures OfferedAt(run, i) {
      assert OfferFollows(run, i);
    }
    if |run| > 1 {
      assert OfferedAt(run, |run| - 1);
    }
  }

  /** One data pass: allocate, let the module write, copy a result that fits,
      scrub the whole allocation and free it, whatever the module answered. */
  method DataCall(h: Heap, m: Module, want: ULong) returns (rv: ULong, n: ULong, out: seq<Byte>, ghost e: Exchange)
    requires h.Valid()
    modifies h, m
    ensures h.Valid() && h.live == old(h.live) && h.dirty == old(h.dirty)
    ensures h.next == old(h.next) + 1 && h.sizes == old(h.sizes)[old(h.next) := Allocation(want)]
    ensures m.calls == old(m.calls) + [e] && rv == e.reply.rv && n == e.reply.len
    ensures e.request == DataPass(want, h.Junk(old(h.next), Allocation(want)))
    ensures e.reply == m.script(|old(m.calls)|, e.request)
    ensures out == if rv == CKR_OK && n <= Allocation(want) then Written(e.request.buffer, want, e.reply.data)[..n] else []
  {
    var allocCap := if want == 0 then 1 else want;
    ghost var before := h.live;
    var buf := h.Malloc(allocCap);
    assert h.live - {buf} == before;
    rv, n, e := m.Call(h, buf, want);
    out := [];
    if rv == CKR_OK && n <= allocCap {
      out := h.live[buf][..n];
    }
    assert h.live - {buf} == before;
    h.ZFree(buf, allocCap);
  }

  /** The heap holds what it held, nothing was freed unscrubbed, and every block
      handed out since `first` was given back once and kept to the limit. */
  ghost predicate Restored(h: Heap, live: map<Ptr, seq<Byte>>, dirty: set<Ptr>, first: Ptr)
    reads h
  {
    && h.Valid() && h.live == live && h.dirty == dirty
    && forall p | first <= p < h.next :: h.freed[p] == 1 && h.sizes[p] <= MAX_OUT_BUF
  }

  /** One data pass of a run that asked for it. */
  method NextPass(h: Heap, m: Module, want: ULong, ghost first: Ptr, ghost start: nat, ghost run: seq<Exchange>)
    returns (rv: ULong, n: ULong, out: seq<Byte>, ghost longer: seq<Exchange>)
    requires h.Valid() && 0 < first && Restored(h, h.live, h.dirty, first) && forall p | p in h.live :: p < first
    requires Ongoing(h, first, m.script, start, run) && AsksAgain(run, |run| - 1) && want == run[|run| - 1].reply.len
    requires |m.calls| == start + |run| && h.next == first + |run| - 1
    modifies h, m
    ensures Restored(h, old(h.live), old(h.dirty), first) && h.next == old(h.next) + 1
    ensures |longer| == |run| + 1 && longer[..|run|] == run && Ongoing(h, first, m.script, start, longer)
    ensures var e := longer[|run|];
            && m.calls == old(m.calls) + [e] && rv == e.reply.rv && n == e.reply.len
            && e.request.DataPass? && e.request.room == want && |e.request.buffer| == Allocation(want)
            && out == if rv == CKR_OK && n <= Allocation(want) then Written(e.request.buffer, want, e.reply.data)[..n] else []
  {
    ghost var e;
    rv, n, out, e := DataCall(h, m, want);
    Extend(h, first, m.script, start, run, e);
    longer := run + [e];
  }

  /** outOp. For every module: the heap is given back as it was found, nothing
      is freed unscrubbed, no block exceeds the limit, there are at most one
      sizing and MAX_RETRIES data passes, answered by the module and each with a
      fresh block, and the result is that of the run. */
  method Output(h: Heap, m: Module) returns (r: Result, ghost run: seq<Exchange>)
    requires h.Valid()
    modifies h, m
    ensures Restored(h, old(h.live), old(h.dirty), old(h.next))
    ensures m.calls == old(m.calls) + run && h.next == old(h.next) + |run| - 1
    ensures Answered(m.script, |old(m.calls)|, run) && FreshBuffers(h, old(h.next), run)
    ensures Run(run) && r == Outcome(run) && Explained(r, run) && Bounded(run)
  {
    ghost var e;
    var rv, n;
    rv, n, e := m.Call(h, NULL, 0);
    run := [e];
    if rv != CKR_OK {
      return Err(Refused(rv)), run;
    }
    r, run := DataPasses(h, m, n, old(h.next), |old(m.calls)|, run);
    RunIsExplained(run);
  }

  /** A module that refuses the sizing pass is called once, and its code is what
      the caller gets. */
  method SizingRefused(h: Heap, m: Module, code: ULong) returns (r: Result, ghost run: seq<Exchange>)
    requires h.Valid() && code != 0 && m.script(|m.calls|, Sizing(0)).rv == code
    modifies h, m
    ensures Restored(h, old(h.live), old(h.dirty), old(h.next)) && h.next == old(h.next)
    ensures |run| == 1 && m.calls == old(m.calls) + run && r == Err(Refused(code))
  {
    r, run := Output(h, m);
    assert !AsksAgain(run, 0);
  }

  /** The loop of outOp after the sizing pass reported `sized`. */
  method DataPasses(h: Heap, m: Module, sized: ULong, ghost first: Ptr, ghost start: nat, ghost sizing: seq<Exchange>)
    returns (r: Result, ghost run: seq<Exchange>)
    requires h.Valid() && first == h.next && |sizing| == 1 && |m.calls| == start + 1
    requires Ongoing(h, first, m.script, start, sizing) && sizing[0].reply.rv == CKR_OK && sizing[0].reply.len == sized
    modifies h, m
    ensures Restored(h, old(h.live), old(h.dirty), first) && h.next == first + |run| - 1
    ensures run != [] && run[0] == sizing[0] && m.calls == old(m.calls) + run[1..]
    ensures Ongoing(h, first, m.script, start, run) && Run(run) && r == Outcome(run)
  {
    var n := sized;
    run := sizing;
    var rv: ULong;
    var out: seq<Byte>;
    for retries := 0 to MAX_RETRIES
      invariant Restored(h, old(h.live), old(h.dirty), first) && h.next == first + retries
      invariant |run| == 1 + retries && run[0] == sizing[0] && m.calls == old(m.calls) + run[1..]
      invariant Ongoing(h, first, m.script, start, run)
      invariant run[retries].reply.len == n && (retries > 0 ==> n <= MAX_OUT_BUF)
      invariant run[retries].reply.rv == if retries == 0 then CKR_OK else CKR_BUFFER_TOO_SMALL
    {
      if n > MAX_OUT_BUF {
        return Err(TooLarge(n)), run;
      }
      var want := n;
      rv, n, out, run := NextPass(h, m, want, first, start, run);
      if rv == CKR_BUFFER_TOO_SMALL {
        if n > MAX_OUT_BUF {
          return Err(TooLarge(n)), run;
        }
        continue;
      }
      if rv != CKR_OK {
        return Err(Refused(rv)), run;
      }
      if n > Allocation(want) || n > MAX_OUT_BUF {
        return Err(Overrun(n, Allocation(want))), run;
      }
      return Ok(out), run;
    }
    return Err(Exhausted), run;
  }

  /** Ctx.Encrypt, a caller of outOp: the input is handed over at a valid
      address for the whole run, scrubbed when it holds data, and given back. */
  method Encrypt(h: Heap, m: Module, data: GoBytes) returns (r: Result, ghost run: seq<Exchange>)
    requires h.Valid()
    modifies h, m
    ensures h.Valid() && h.live == old(h.live)
    ensures old(h.dirty) <= h.dirty <= old(h.dirty) + if data == [] then {old(h.next)} else {}
    ensures m.calls == old(m.calls) + run && h.next == old(h.next) + |run|
    ensures Answered(m.script, |old(m.calls)|, run)
    ensures Run(run) && r == Outcome(run) && Explained(r, run) && Bounded(run)
  {
    var p, n := h.CInput(data);
    assert h.live - {p} == old(h.live);
    r, run := Output(h, m);
    h.ZFree(p, n);
  }
}
