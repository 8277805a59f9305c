/** Which bytes a successful outOp returns, for every module. */
module OutOpBytes {
  import opened Common
  import opened CHeap
  import opened OutOp
  import opened OutOpHonest

  /** How many bytes the module wrote in a data pass. */
  function WrittenIn(e: Exchange): nat
    requires e.request.DataPass?
  {
    if |e.reply.data| <= e.request.room then |e.reply.data| else e.request.room
  }

  /** The same run over a last buffer with other contents. */
  function WithBuffer(run: seq<Exchange>, buffer: seq<Byte>): seq<Exchange>
    requires run != [] && run[|run| - 1].request.DataPass?
  {
    var e := run[|run| - 1];
    run[|run| - 1 := e.(request := e.request.(buffer := buffer))]
  }

  /** The result is the reported number of bytes of the last buffer: first what
      the module wrote, then what the memory held before. It exceeds the room that
      was advertised only as one byte for a room of zero. */
  lemma {:induction false} ResultBytes(run: seq<Exchange>)
    requires Run(run) && Outcome(run).Ok?
    ensures |run| > 1 && run[|run| - 1].request.DataPass? && run[|run| - 1].reply.rv == CKR_OK
    ensures var e := run[|run| - 1];
            var out := Outcome(run).value;
            && |out| == e.reply.len <= Allocation(e.request.room) <= MAX_OUT_BUF && |e.request.buffer| == Allocation(e.request.room)
            && (|out| > e.request.room <==> e.request.room == 0 && e.reply.len == 1)
            && forall j | 0 <= j < |out| :: out[j] == if j < WrittenIn(e) then e.reply.data[j] else e.request.buffer[j]
  {
    var i := |run| - 1;
    if i == 0 {
      assert false;
    }
    assert OfferFollows(run, i);
  }

  lemma {:induction false} OtherBuffer(run: seq<Exchange>, buffer: seq<Byte>)
    requires Run(run) && Outcome(run).Ok? && run[|run| - 1].request.DataPass?
    requires |buffer| == |run[|run| - 1].request.buffer|
    ensures Run(WithBuffer(run, buffer)) && Outcome(WithBuffer(run, buffer)).Ok?
  {
    var other := WithBuffer(run, buffer);
    ResultBytes(run);
    forall i | 1 <= i < |other| ensures OfferFollows(other, i) {
      assert OfferFollows(run, i);
    }
    forall i | 0 <= i < |other| - 1 ensures AsksAgain(other, i) {
      assert AsksAgain(run, i);
    }
  }

  /** The result the same module gives when the memory held other bytes. */
  function OutcomeOver(run: seq<Exchange>, buffer: seq<Byte>): Result
    requires Run(run) && Outcome(run).Ok? && run[|run| - 1].request.DataPass?
    requires |buffer| == |run[|run| - 1].request.buffer|
  {
    OtherBuffer(run, buffer);
    Outcome(WithBuffer(run, buffer))
  }

  lemma {:induction false} BytesOver(run: seq<Exchange>, buffer: seq<Byte>)
    requires Run(run) && Outcome(run).Ok? && run[|run| - 1].request.DataPass?
    requires |buffer| == |run[|run| - 1].request.buffer|
    ensures var e := run[|run| - 1];
            var r := OutcomeOver(run, buffer);
            && r.Ok? && |r.value| == |Outcome(run).value| <= |buffer|
            && forall j | 0 <= j < |r.value| :: r.value[j] == if j < WrittenIn(e) then e.reply.data[j] else buffer[j]
  {
    OtherBuffer(run, buffer);
    ResultBytes(run);
    ResultBytes(WithBuffer(run, buffer));
  }

  /** The result depends on what the memory held before, if and only if the
      module reported more bytes than it wrote. */
  lemma {:induction false} UnwrittenIff(run: seq<Exchange>)
    requires Run(run) && Outcome(run).Ok? && run[|run| - 1].request.DataPass?
    ensures var e := run[|run| - 1];
            (forall buffer | |buffer| == |e.request.buffer| :: OutcomeOver(run, buffer) == Outcome(run))
            <==> e.reply.len <= WrittenIn(e)
  {
    var e := run[|run| - 1];
    ResultBytes(run);
    var out := Outcome(run).value;
    if e.reply.len <= WrittenIn(e) {
      forall buffer | |buffer| == |e.request.buffer| ensures OutcomeOver(run, buffer) == Outcome(run) {
        BytesOver(run, buffer);
        assert OutcomeOver(run, buffer).value == out;
      }
    } else {
      var j := |out| - 1;
      var other: Byte := if e.request.buffer[j] == 0 then 1 else 0;
      var buffer := e.request.buffer[j := other];
      BytesOver(run, buffer);
      assert OutcomeOver(run, buffer).value[j] != out[j];
    }
  }

  /** Memory the module never wrote, returned by a call: it announces two bytes,
      reports two bytes and writes none. */
  method UnwrittenReturned() returns (r: Result)
    ensures r == Ok([7, 7])
  {
    var h := new Heap((p: Ptr, i: nat) => 7);
    var m := new Module((n: nat, request: Request) => Reply(CKR_OK, 2, []));
    ghost var run;
    ghost var script, first := m.script, h.next;
    r, run := Output(h, m);
    assert run[0].reply == script(0, run[0].request) == Reply(CKR_OK, 2, []);
    assert AsksAgain(run, 0);
    assert run[1].reply == script(1, run[1].request) == Reply(CKR_OK, 2, []);
    assert OfferFollows(run, 1);
    assert !AsksAgain(run, 1);
    assert |run| == 2;
    ResultBytes(run);
    assert run[1].request.buffer == h.Junk(first, 2);
    assert r.value == [7, 7];
  }

  /** An operation left pending at the limits: its module keeps to the standard
      and always announces one byte for an output of two. */
  method LeftPending() returns (r: Result, ghost run: seq<Exchange>)
    ensures r.Err? && !Finished(run)
  {
    var h := new Heap((p: Ptr, i: nat) => 0);
    var script := (n: nat, request: Request) =>
      if request.Sizing? then Reply(CKR_OK, 1, [])
      else if 2 <= request.room then Reply(CKR_OK, 2, [5, 6])
      else Reply(CKR_BUFFER_TOO_SMALL, 1, []);
    var m := new Module(script);
    ghost var op := Yields([5, 6]);
    r, run := OutputOfHonest(h, m, op, (k: nat) => 1);
    assert !EnoughAnnounced(op, (k: nat) => 1);
  }
}
