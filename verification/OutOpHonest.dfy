/** What outOp returns when the module keeps to section 5.2 of PKCS #11 v3.2,
  and what it may return when it does not. */
module OutOpHonest {
  import opened Common
  import opened CHeap
  import opened OutOp

  /** What an operation does once it is offered enough room: it yields its
      output, or it fails, as a decryption does whose tag is not the right one. */
  datatype Operation = Yields(output: seq<Byte>) | Fails(needs: nat, rv: ULong)

  predicate IsOperation(op: Operation) {
    op.Fails? ==> op.rv != CKR_OK && op.rv != CKR_BUFFER_TOO_SMALL
  }

  function RoomOf(op: Operation): nat {
    if op.Yields? then |op.output| else op.needs
  }

  /** What running the operation once gives. */
  function ResultOf(op: Operation): Result {
    if op.Yields? then Ok(op.output) else Err(Refused(op.rv))
  }

  /** Exchange k of a pending operation. A NULL buffer or one that is too small
      leaves the operation pending and reports some length, `announced(k)`, which
      may be anything; a buffer with enough room lets the operation run. */
  predicate Honest(k: nat, e: Exchange, op: Operation, announced: nat -> ULong) {
    if e.request.Sizing? then
      e.reply.rv == CKR_OK && e.reply.len == announced(k)
    else if RoomOf(op) <= e.request.room then
      match op
      case Yields(output) => e.reply.rv == CKR_OK && e.reply.len == |output| && output <= e.reply.data
      case Fails(_, rv) => e.reply.rv == rv
    else
      e.reply.rv == CKR_BUFFER_TOO_SMALL && e.reply.len == announced(k)
  }

  predicate AllHonest(run: seq<Exchange>, op: Operation, announced: nat -> ULong) {
    forall k | 0 <= k < |run| :: Honest(k, run[k], op, announced)
  }

  /** The operation was carried out: a data pass was not put off. */
  predicate Finished(run: seq<Exchange>) {
    exists k | 0 <= k < |run| :: run[k].request.DataPass? && run[k].reply.rv != CKR_BUFFER_TOO_SMALL
  }

  /** One of the first MAX_RETRIES announced lengths is enough and no length up
      to it exceeds the limit. */
  predicate EnoughAnnounced(op: Operation, announced: nat -> ULong) {
    exists k :: 0 <= k < MAX_RETRIES && SufficesAt(op, announced, k)
  }

  predicate SufficesAt(op: Operation, announced: nat -> ULong, k: nat) {
    RoomOf(op) <= announced(k) && forall j | 0 <= j <= k :: announced(j) <= MAX_OUT_BUF
  }

  predicate RoomAt(run: seq<Exchange>, op: Operation, i: nat)
    requires i < |run|
  {
    run[i].request.DataPass? && RoomOf(op) <= run[i].request.room
  }

  lemma AnnouncedLengths(run: seq<Exchange>, op: Operation, announced: nat -> ULong, i: nat)
    requires IsOperation(op) && Run(run) && AllHonest(run, op, announced) && i < |run| - 1
    ensures run[i].reply.len == announced(i) <= MAX_OUT_BUF
    ensures run[i + 1].request.DataPass? && run[i + 1].request.room == announced(i)
  {
    assert AsksAgain(run, i) && OfferFollows(run, i + 1);
    assert Honest(i, run[i], op, announced);
    if i > 0 {
      assert OfferFollows(run, i);
    }
  }

  /** A data pass with enough room is the last one, and runs the operation. */
  lemma {:induction false} RoomEndsRun(run: seq<Exchange>, op: Operation, announced: nat -> ULong, i: nat)
    requires IsOperation(op) && Run(run) && AllHonest(run, op, announced)
    requires 1 <= i < |run| && RoomAt(run, op, i)
    ensures i == |run| - 1 && Outcome(run) == ResultOf(op)
  {
    AnnouncedLengths(run, op, announced, i - 1);
    assert Honest(i, run[i], op, announced);
    assert OfferFollows(run, i);
    assert !AsksAgain(run, i);
    var e := run[i];
    if op.Yields? {
      assert Written(e.request.buffer, e.request.room, e.reply.data)[..|op.output|] == op.output;
    }
  }

  /** A run in which no data pass had enough room: none of the announced
      lengths sufficed, and the operation is still pending. */
  lemma {:induction false} NoRoomNotEnough(run: seq<Exchange>, op: Operation, announced: nat -> ULong, k: nat)
    requires IsOperation(op) && Run(run) && AllHonest(run, op, announced) && k < MAX_RETRIES
    requires forall i | 1 <= i < |run| :: !RoomAt(run, op, i)
    ensures !SufficesAt(op, announced, k) && !Finished(run) && !Outcome(run).Ok? && Outcome(run) != ResultOf(op)
  {
    forall i | 1 <= i < |run| ensures run[i].reply.rv == CKR_BUFFER_TOO_SMALL {
      AnnouncedLengths(run, op, announced, i - 1);
      assert !RoomAt(run, op, i) && Honest(i, run[i], op, announced);
    }
    var last := |run| - 1;
    assert Honest(0, run[0], op, announced) && Honest(last, run[last], op, announced);
    if k < last {
      AnnouncedLengths(run, op, announced, k);
      assert !RoomAt(run, op, k + 1);
    } else {
      assert !AsksAgain(run, last);
      assert announced(last) > MAX_OUT_BUF;
    }
  }

  /** outOp refines "run the operation once": its result is the operation's
      exactly when enough room is announced in time, which is exactly when the
      operation was carried out; otherwise it fails and the operation is pending. */
  lemma {:induction false} RunsOperationOnce(run: seq<Exchange>, op: Operation, announced: nat -> ULong)
    requires IsOperation(op) && Run(run) && AllHonest(run, op, announced)
    ensures Outcome(run) == ResultOf(op) <==> EnoughAnnounced(op, announced)
    ensures Finished(run) <==> EnoughAnnounced(op, announced)
    ensures Outcome(run).Ok? ==> Outcome(run) == ResultOf(op)
  {
    if i :| 1 <= i < |run| && RoomAt(run, op, i) {
      RoomEndsRun(run, op, announced, i);
      forall j | 0 <= j <= i - 1 ensures announced(j) <= MAX_OUT_BUF {
        AnnouncedLengths(run, op, announced, j);
      }
      AnnouncedLengths(run, op, announced, i - 1);
      assert SufficesAt(op, announced, i - 1);
      assert Honest(i, run[i], op, announced);
    } else {
      forall k | 0 <= k < MAX_RETRIES
        ensures !SufficesAt(op, announced, k) && !Finished(run) && !Outcome(run).Ok? && Outcome(run) != ResultOf(op)
      {
        NoRoomNotEnough(run, op, announced, k);
      }
      assert !SufficesAt(op, announced, 0);
    }
  }

  /** An operation that fails in its data pass, also after a sizing pass that
      reported no bytes at all, is never reported as a success. */
  lemma {:induction false} FailureNeverOk(run: seq<Exchange>, op: Operation, announced: nat -> ULong)
    requires op.Fails? && IsOperation(op) && Run(run) && AllHonest(run, op, announced)
    ensures Outcome(run).Err?
    ensures op.needs == 0 && announced(0) == 0 ==> |run| == 2 && Outcome(run) == Err(Refused(op.rv))
  {
    RunsOperationOnce(run, op, announced);
    if op.needs == 0 && announced(0) == 0 {
      assert SufficesAt(op, announced, 0);
      assert Honest(0, run[0], op, announced);
      assert AsksAgain(run, 0);
      AnnouncedLengths(run, op, announced, 0);
      RoomEndsRun(run, op, announced, 1);
    }
  }

  /** With the lengths the standard asks for, where a buffer that is too small
      is answered with a sufficient one, two data passes settle the operation. */
  lemma {:induction false} TwoDataPassesSuffice(run: seq<Exchange>, op: Operation, announced: nat -> ULong)
    requires IsOperation(op) && Run(run) && AllHonest(run, op, announced)
    requires forall k | 1 <= k :: RoomOf(op) <= announced(k)
    ensures |run| <= 3
    ensures Outcome(run) == ResultOf(op) <==>
            announced(0) <= MAX_OUT_BUF && (RoomOf(op) <= announced(0) || announced(1) <= MAX_OUT_BUF)
  {
    RunsOperationOnce(run, op, announced);
    if |run| > 3 {
      AnnouncedLengths(run, op, announced, 1);
      RoomEndsRun(run, op, announced, 2);
      assert false;
    }
    if announced(0) <= MAX_OUT_BUF && (RoomOf(op) <= announced(0) || announced(1) <= MAX_OUT_BUF) {
      assert SufficesAt(op, announced, if RoomOf(op) <= announced(0) then 0 else 1);
    }
  }

  /** Every run comes to an end after at most one sizing and MAX_RETRIES data
      passes, and gives up for lack of room only on the last of them. */
  lemma {:induction false} ExhaustedOnlyAtLimit(run: seq<Exchange>)
    requires Run(run) && Outcome(run) == Err(Exhausted)
    ensures |run| == 1 + MAX_RETRIES
    ensures forall i | 1 <= i < |run| :: run[i].reply.rv == CKR_BUFFER_TOO_SMALL && run[i].reply.len <= MAX_OUT_BUF
  {
    forall i | 1 <= i < |run| - 1 ensures run[i].reply.rv == CKR_BUFFER_TOO_SMALL && run[i].reply.len <= MAX_OUT_BUF {
      assert AsksAgain(run, i);
    }
    if |run| == 1 {
      assert false;
    }
    assert AsksAgain(run, |run| - 1);
  }

  // ---- Calls ----------------------------------------------------------------------

  /** A module that keeps to the standard, whatever it is asked, in an operation
      that begins at its call number `start`. */
  ghost predicate KeepsStandard(script: (nat, Request) -> Reply, start: nat, op: Operation, announced: nat -> ULong) {
    forall k: nat, request: Request :: Honest(k, Reaction(script, start, k, request), op, announced)
  }

  function Reaction(script: (nat, Request) -> Reply, start: nat, k: nat, request: Request): Exchange {
    Exchange(request, script(start + k, request))
  }

  /** outOp called on such a module. */
  method OutputOfHonest(h: Heap, m: Module, ghost op: Operation, ghost announced: nat -> ULong)
    returns (r: Result, ghost run: seq<Exchange>)
    requires h.Valid() && IsOperation(op) && KeepsStandard(m.script, |m.calls|, op, announced)
    modifies h, m
    ensures Restored(h, old(h.live), old(h.dirty), old(h.next)) && m.calls == old(m.calls) + run
    ensures r == ResultOf(op) <==> EnoughAnnounced(op, announced)
    ensures Finished(run) <==> EnoughAnnounced(op, announced)
    ensures r.Ok? ==> r == ResultOf(op)
  {
    ghost var start := |m.calls|;
    r, run := Output(h, m);
    forall k | 0 <= k < |run| ensures Honest(k, run[k], op, announced) {
      assert run[k] == Reaction(m.script, start, k, run[k].request);
    }
    RunsOperationOnce(run, op, announced);
  }
}
