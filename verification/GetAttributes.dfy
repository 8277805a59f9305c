/** The per-attribute two-pass protocol of section 5.7 of PKCS #11 v3.2
  (cryptoki/object.go). */
module GetAttributes {
  import opened Common
  import opened CHeap
  import opened Marshal

  const CKR_ATTRIBUTE_SENSITIVE: ULong := 0x11
  const CKR_ATTRIBUTE_TYPE_INVALID: ULong := 0x12
  /** CK_UNAVAILABLE_INFORMATION */
  const UNAVAILABLE: ULong := 0xFFFF_FFFF_FFFF_FFFF
  const CKF_ARRAY_ATTRIBUTE: ULong := 0x4000_0000
  const CKA_ENCAPSULATE_TEMPLATE: ULong := 0x62A
  const CKA_DECAPSULATE_TEMPLATE: ULong := 0x62B

  /** One CK_ATTRIBUTE as the module sees it: with a NULL pointer, or with a
      buffer of which it may write `len` bytes. */
  datatype Slot = Ask(typ: ULong, len: ULong) | Room(typ: ULong, len: ULong, buffer: seq<Byte>)
  /** An answer: a return value, and for each attribute a length to store and
      bytes to write. Nothing is assumed about any of them. */
  datatype Reply = Reply(rv: ULong, len: nat -> ULong, data: nat -> seq<Byte>)
  datatype Call = Call(slots: seq<Slot>, reply: Reply)

  datatype Error = ArrayAttribute(typ: ULong) | Refused(rv: ULong)
  /** The pair Go returns; `rv` is CKR_OK for a nil error. */
  datatype Result = Failed(error: Error) | Read(attributes: seq<Attribute>, rv: ULong)

  predicate IsArrayAttribute(t: ULong) {
    t == CKA_ENCAPSULATE_TEMPLATE || t == CKA_DECAPSULATE_TEMPLATE || (t / CKF_ARRAY_ATTRIBUTE) % 2 == 1
  }

  predicate PartialOK(rv: ULong) {
    rv == CKR_OK || rv == CKR_ATTRIBUTE_SENSITIVE || rv == CKR_ATTRIBUTE_TYPE_INVALID
  }

  /** Every pointer of a native array is a live block with room for the
      advertised length, and no two entries share a block. */
  predicate Backed(live: map<Ptr, seq<Byte>>, list: seq<CkAttribute>) {
    && (forall i | 0 <= i < |list| :: list[i].pValue != NULL ==>
          list[i].pValue in live && list[i].len <= |live[list[i].pValue]|)
    && (forall i, j | 0 <= i < j < |list| :: list[i].pValue != NULL ==> list[i].pValue != list[j].pValue)
  }

  /** What the module sees of a native array. */
  function Slots(live: map<Ptr, seq<Byte>>, list: seq<CkAttribute>): (slots: seq<Slot>)
    requires Backed(live, list)
    ensures |slots| == |list|
  {
    seq(|list|, i requires 0 <= i < |list| =>
      if list[i].pValue == NULL then Ask(list[i].typ, list[i].len)
      else Room(list[i].typ, list[i].len, live[list[i].pValue]))
  }

  /** The array after an answer: only the lengths change. */
  function Answered(list: seq<CkAttribute>, reply: Reply): (after: seq<CkAttribute>)
    ensures |after| == |list|
  {
    seq(|list|, i requires 0 <= i < |list| => list[i].(len := reply.len(i)))
  }

  /** The heap after an answer: each buffer was written within its room, and
      nothing else was. */
  ghost predicate Filled(before: map<Ptr, seq<Byte>>, after: map<Ptr, seq<Byte>>, list: seq<CkAttribute>, reply: Reply)
    requires Backed(before, list)
  {
    && after.Keys == before.Keys
    && (forall i | 0 <= i < |list| && list[i].pValue != NULL ::
          after[list[i].pValue] == Written(before[list[i].pValue], list[i].len, reply.data(i)))
    && (forall p | p in before && (forall i | 0 <= i < |list| :: list[i].pValue != p) :: after[p] == before[p])
  }

  lemma FilledMore(before: map<Ptr, seq<Byte>>, mid: map<Ptr, seq<Byte>>, list: seq<CkAttribute>, a: CkAttribute, reply: Reply)
    requires Backed(before, list + [a]) && Backed(before, list) && Filled(before, mid, list, reply)
    ensures a.pValue == NULL ==> Filled(before, mid, list + [a], reply)
    ensures a.pValue != NULL ==>
              && a.pValue in before && a.pValue in mid && mid[a.pValue] == before[a.pValue] && a.len <= |mid[a.pValue]|
              && Filled(before, mid[a.pValue := Written(mid[a.pValue], a.len, reply.data(|list|))], list + [a], reply)
  {
    var more := list + [a];
    assert more[|list|] == a;
    forall i | 0 <= i < |list| ensures more[i] == list[i] && (a.pValue != NULL ==> list[i].pValue != a.pValue) {}
    forall p | p in before && (forall i | 0 <= i < |more| :: more[i].pValue != p) ensures mid[p] == before[p] {
      forall i | 0 <= i < |list| ensures list[i].pValue != p {
        assert more[i] == list[i];
      }
    }
  }

  lemma FilledNothing(before: map<Ptr, seq<Byte>>, after: map<Ptr, seq<Byte>>, list: seq<CkAttribute>, reply: Reply)
    requires Backed(before, list) && Filled(before, after, list, reply) && NULL !in before
    requires forall i | 0 <= i < |list| :: list[i].pValue == NULL
    ensures after == before
  {
  }

  lemma BackedPrefix(live: map<Ptr, seq<Byte>>, list: seq<CkAttribute>, n: nat)
    requires Backed(live, list) && n <= |list|
    ensures Backed(live, list[..n])
  {
  }

  class Token {
    const script: (nat, seq<Slot>) -> Reply
    var calls: seq<Call>

    constructor (script: (nat, seq<Slot>) -> Reply)
      ensures calls == [] && this.script == script
    {
      this.script := script;
      calls := [];
    }

    /** The call that answers these slots now. */
    function Answer(slots: seq<Slot>): Call
      reads this
    {
      Call(slots, script(|calls|, slots))
    }

    /** C_GetAttributeValue: the module stores lengths and writes inside the
        advertised room; it leaves types and pointers alone. */
    method GetAttributeValue(h: Heap, list: array<CkAttribute>) returns (rv: ULong, ghost call: Call)
      requires h.Valid() && Backed(h.live, list[..])
      modifies this, h`live, list
      ensures h.Valid() && call == old(Answer(Slots(h.live, list[..]))) && rv == call.reply.rv
      ensures calls == old(calls) + [call]
      ensures list[..] == Answered(old(list[..]), call.reply)
      ensures Filled(old(h.live), h.live, old(list[..]), call.reply)
    {
      var now := Answer(Slots(h.live, list[..]));
      var reply := now.reply;
      call := now;
      calls := calls + [now];
      ghost var was, before, recorded := list[..], h.live, calls;
      for i := 0 to list.Length
        invariant calls == recorded && Answering(h, list, was, before, reply, i)
      {
        AnswerEntry(h, list, i, reply, was, before);
      }
      assert was[..list.Length] == was && list[..] == Answered(was, reply);
      rv := reply.rv;
    }
  }

  /** The first i entries were answered, the others not yet. */
  ghost predicate Answering(h: Heap, list: array<CkAttribute>, was: seq<CkAttribute>, before: map<Ptr, seq<Byte>>, reply: Reply, i: nat)
    reads h, list
  {
    && h.Valid() && i <= list.Length == |was| && Backed(before, was)
    && (forall k | 0 <= k < |was| :: list[k] == if k < i then Answered(was, reply)[k] else was[k])
    && Backed(before, was[..i]) && Filled(before, h.live, was[..i], reply)
  }

  /** The module's answer for one attribute. */
  method AnswerEntry(h: Heap, list: array<CkAttribute>, i: nat, reply: Reply, ghost was: seq<CkAttribute>, ghost before: map<Ptr, seq<Byte>>)
    requires i < list.Length && Answering(h, list, was, before, reply, i)
    modifies h`live, list
    ensures Answering(h, list, was, before, reply, i + 1)
  {
    var a := list[i];
    assert was[..i + 1] == was[..i] + [a];
    BackedPrefix(before, was, i + 1);
    FilledMore(before, h.live, was[..i], a, reply);
    if a.pValue != NULL {
      h.Write(a.pValue, a.len, reply.data(i));
    }
    list[i] := a.(len := reply.len(i));
  }

  /** The first pass: every requested type with a NULL pointer and length 0. */
  function Queries(types: seq<ULong>): (slots: seq<Slot>)
    ensures |slots| == |types|
  {
    seq(|types|, i requires 0 <= i < |types| => Ask(types[i], 0))
  }

  /** A length that gets a buffer for the second pass. */
  predicate Readable(len: ULong) {
    len != UNAVAILABLE && len > 0
  }

  /** One entry of the second pass: a zeroed buffer of the reported length. */
  function Offer(t: ULong, len: ULong): (slot: Slot)
    ensures slot.len == len && slot.typ == t
    ensures slot.Room? ==> slot.buffer == Zeros(len)
  {
    if Readable(len) then Room(t, len, Zeros(len)) else Ask(t, len)
  }

  function Offers(types: seq<ULong>, first: Reply): (slots: seq<Slot>)
    ensures |slots| == |types|
  {
    seq(|types|, i requires 0 <= i < |types| => Offer(types[i], first.len(i)))
  }

  predicate HasArray(types: seq<ULong>) {
    exists t | t in types :: IsArrayAttribute(t)
  }

  /** The replies of a run are those the token gives from its call number
      `start` on. */
  ghost predicate Replied(script: (nat, seq<Slot>) -> Reply, start: nat, run: seq<Call>) {
    forall i | 0 <= i < |run| :: run[i].reply == script(start + i, run[i].slots)
  }

  /** The calls GetAttributeValue makes for the requested types. */
  predicate Run(types: seq<ULong>, run: seq<Call>) {
    if types == [] || HasArray(types) then run == []
    else
      && 1 <= |run| <= 2
      && run[0].slots == Queries(types)
      && (|run| == 2 <==> PartialOK(run[0].reply.rv))
      && (|run| == 2 ==> run[1].slots == Offers(types, run[0].reply))
  }

  /** The value copied out of one entry after the second pass; nil when there
      is no buffer or the stored length is unusable. */
  function Copied(slot: Slot, len: ULong, data: seq<Byte>): (v: seq<Byte>)
    requires slot.Room? ==> |slot.buffer| == slot.len
    ensures |v| < 0x8000_0000
  {
    CIntNeverExceeds(len);
    if slot.Room? && len != UNAVAILABLE && len <= slot.len && CInt(len) > 0
    then Written(slot.buffer, slot.len, data)[..CInt(len)]
    else []
  }

  /** The error for the first array attribute among the types. */
  function FirstArray(types: seq<ULong>): (t: ULong)
    requires HasArray(types)
    ensures t in types && IsArrayAttribute(t)
  {
    if IsArrayAttribute(types[0]) then types[0] else FirstArray(types[1..])
  }

  function Outcome(types: seq<ULong>, run: seq<Call>): Result
    requires Run(types, run)
  {
    if types == [] then Read([], CKR_OK)
    else if HasArray(types) then Failed(ArrayAttribute(FirstArray(types)))
    else if |run| == 1 || !PartialOK(run[1].reply.rv) then Failed(Refused(run[|run| - 1].reply.rv))
    else Read(seq(|types|, i requires 0 <= i < |types| =>
                Attribute(types[i], Copied(Offer(types[i], run[0].reply.len(i)), run[1].reply.len(i), run[1].reply.data(i)))), run[1].reply.rv)
  }

  // ---- The result in terms of the replies ------------------------------------------

  /** An attribute that holds nested attributes: one of two types, or bit 30. */
  predicate Nested(t: ULong) {
    t == 0x62A || t == 0x62B || t / 1073741824 % 2 == 1
  }

  /** The codes of section 5.7 with which a call has still answered. */
  predicate StillAnswers(rv: ULong) {
    rv == 0 || rv == 0x11 || rv == 0x12
  }

  /** What one entry holds, byte by byte: nothing unless the first pass gave a
      length and the second one no larger length, whose low 32 bits are a positive
      C int; else that many bytes, what the token wrote and then zeros. */
  predicate ValueOf(value: seq<Byte>, first: ULong, second: ULong, data: seq<Byte>) {
    var low := second % 0x1_0000_0000;
    if first == 0 || first == 0xFFFF_FFFF_FFFF_FFFF || second > first || low == 0 || low >= 0x8000_0000 then value == []
    else
      && |value| == low
      && forall j | 0 <= j < low :: value[j] == if j < |data| then data[j] else 0
  }

  /** What the caller gets, in terms of the request and the replies alone. */
  ghost predicate Explained(types: seq<ULong>, r: Result, run: seq<Call>) {
    match r
    case Failed(ArrayAttribute(t)) =>
      run == [] && Nested(t) && exists i :: 0 <= i < |types| && types[i] == t && forall j | 0 <= j < i :: !Nested(types[j])
    case Failed(Refused(code)) =>
      && types != [] && (forall t | t in types :: !Nested(t))
      && 1 <= |run| <= 2 && (|run| == 2 ==> StillAnswers(run[0].reply.rv))
      && code == run[|run| - 1].reply.rv && !StillAnswers(code)
    case Read(attributes, rv) =>
      if types == [] then run == [] && attributes == [] && rv == 0
      else
        && (forall t | t in types :: !Nested(t))
        && |run| == 2 && StillAnswers(run[0].reply.rv) && StillAnswers(run[1].reply.rv) && rv == run[1].reply.rv
        && |attributes| == |types|
        && forall i | 0 <= i < |types| ::
             && attributes[i].typ == types[i]
             && ValueOf(attributes[i].value, run[0].reply.len(i), run[1].reply.len(i), run[1].reply.data(i))
  }

  lemma CopiedValue(t: ULong, first: ULong, second: ULong, data: seq<Byte>)
    ensures ValueOf(Copied(Offer(t, first), second, data), first, second, data)
  {
    CIntNeverExceeds(second);
  }

  lemma {:induction false} FirstNested(types: seq<ULong>)
    requires HasArray(types)
    ensures exists i :: 0 <= i < |types| && types[i] == FirstArray(types) && forall j | 0 <= j < i :: !Nested(types[j])
  {
    if !IsArrayAttribute(types[0]) {
      FirstNested(types[1..]);
      var i :| 0 <= i < |types[1..]| && types[1..][i] == FirstArray(types[1..]) && forall j | 0 <= j < i :: !Nested(types[1..][j]);
      forall j | 0 <= j < i + 1 ensures !Nested(types[j]) {
        if j > 0 {
          assert types[j] == types[1..][j - 1];
        }
      }
      assert types[i + 1] == FirstArray(types);
    }
  }

  lemma RunIsExplained(types: seq<ULong>, run: seq<Call>)
    requires Run(types, run)
    ensures Explained(types, Outcome(types, run), run)
  {
    if types != [] && HasArray(types) {
      FirstNested(types);
    } else if types != [] && |run| == 2 {
      forall i | 0 <= i < |types|
        ensures ValueOf(Copied(Offer(types[i], run[0].reply.len(i)), run[1].reply.len(i), run[1].reply.data(i)),
                        run[0].reply.len(i), run[1].reply.len(i), run[1].reply.data(i))
      {
        CopiedValue(types[i], run[0].reply.len(i), run[1].reply.len(i), run[1].reply.data(i));
      }
    }
  }

  // ---- The method ------------------------------------------------------------------

  /** Give every readable entry a zeroed buffer, and record its size apart from
      the array, whose lengths the module may overwrite. */
  method AllocateBuffers(h: Heap, list: array<CkAttribute>, ghost before: map<Ptr, seq<Byte>>, ghost arr: Buf)
    returns (allocs: seq<Buf>)
    requires h.Valid() && Added(before, h.live, Template(arr, []))
    requires forall i | 0 <= i < list.Length :: list[i].pValue == NULL
    modifies h, list
    ensures h.Valid() && h.dirty == old(h.dirty)
    ensures Added(before, h.live, Template(arr, allocs)) && |allocs| == list.Length
    ensures forall i | 0 <= i < list.Length :: BufferFor(h.live, old(list[i]), list[i], allocs[i])
  {
    allocs := [];
    for i := 0 to list.Length
      invariant h.Valid() && h.dirty == old(h.dirty)
      invariant Added(before, h.live, Template(arr, allocs)) && |allocs| == i
      invariant forall k | i <= k < list.Length :: list[k] == old(list[k])
      invariant forall k | 0 <= k < i :: BufferFor(h.live, old(list[k]), list[k], allocs[k])
    {
      var a := list[i];
      if a.len != UNAVAILABLE && a.len > 0 {
        AddedOne(before, h.live, Template(arr, allocs), h.next, Zeros(a.len));
        var p := h.Calloc(a.len);
        list[i] := a.(pValue := p);
        allocs := allocs + [Buf(p, a.len)];
      } else {
        AddedNone(before, h.live, Template(arr, allocs));
        allocs := allocs + [Buf(NULL, 0)];
      }
    }
  }

  predicate BufferFor(live: map<Ptr, seq<Byte>>, was: CkAttribute, a: CkAttribute, buf: Buf) {
    && a == was.(pValue := buf.p)
    && (if Readable(a.len) then buf.p != NULL && buf.p in live && live[buf.p] == Zeros(a.len) && buf.size == a.len
        else buf == Buf(NULL, 0))
  }

  /** What was allocated stays accounted for whatever the module writes. */
  lemma FilledKeepsAdded(before: map<Ptr, seq<Byte>>, live: map<Ptr, seq<Byte>>, after: map<Ptr, seq<Byte>>,
                         list: seq<CkAttribute>, reply: Reply, t: Template)
    requires Added(before, live, t) && Backed(live, list) && Filled(live, after, list, reply)
    requires |list| == |t.values| && forall i | 0 <= i < |list| :: list[i].pValue == t.values[i].p
    ensures Added(before, after, t)
  {
    forall i | 0 <= i < |list| ensures list[i].pValue in Addresses(t.values) {
      assert t.values[i].p == list[i].pValue;
    }
    var outside := after - Addresses(t.values) - {t.arr.p};
    assert outside.Keys == before.Keys;
    forall p | p in outside ensures outside[p] == before[p] {
      assert after[p] == live[p];
    }
  }

  /** Copy out each value the second pass left usable. */
  method CopyOut(h: Heap, list: array<CkAttribute>, allocs: seq<Buf>) returns (out: seq<Attribute>)
    requires |allocs| == list.Length && Owned(h.live, allocs)
    requires forall i | 0 <= i < list.Length :: list[i].pValue == allocs[i].p
    ensures |out| == list.Length
    ensures forall i | 0 <= i < list.Length ::
              out[i] == Attribute(list[i].typ, Usable(h.live, allocs[i], list[i].len))
  {
    out := [];
    for i := 0 to list.Length
      invariant |out| == i
      invariant forall k | 0 <= k < i :: out[k] == Attribute(list[k].typ, Usable(h.live, allocs[k], list[k].len))
    {
      var value: GoBytes := [];
      CIntNeverExceeds(list[i].len);
      if allocs[i].p != NULL && list[i].len != UNAVAILABLE && list[i].len <= allocs[i].size {
        var cn := CInt(list[i].len);
        if cn > 0 {
          value := h.live[list[i].pValue][..cn];
        }
      }
      out := out + [Attribute(list[i].typ, value)];
    }
  }

  function Usable(live: map<Ptr, seq<Byte>>, buf: Buf, len: ULong): (v: GoBytes)
    requires buf.p != NULL ==> buf.p in live && |live[buf.p]| == buf.size
  {
    CIntNeverExceeds(len);
    if buf.p != NULL && len != UNAVAILABLE && len <= buf.size && CInt(len) > 0 then live[buf.p][..CInt(len)] else []
  }

  /** The second pass over the array the first one sized. */
  method SecondPass(h: Heap, tok: Token, types: seq<ULong>, list: array<CkAttribute>, arr: Ptr,
                    ghost first: Call, ghost before: map<Ptr, seq<Byte>>)
    returns (r: Result, ghost second: Call)
    requires h.Valid() && Added(before, h.live, Template(Buf(arr, |types| * ATTRIBUTE_SIZE), [])) && list.Length == |types|
    requires Run(types, [first, tok.Answer(Offers(types, first.reply))])
    requires forall i | 0 <= i < |types| :: list[i] == CkAttribute(types[i], NULL, first.reply.len(i))
    modifies h, tok, list
    ensures h.Valid() && h.live == before
    ensures old(h.dirty) <= h.dirty <= old(h.dirty) + {arr}
    ensures tok.calls == old(tok.calls) + [second]
    ensures second == old(tok.Answer(Offers(types, first.reply)))
    ensures r == Outcome(types, [first, second])
  {
    var allocs := AllocateBuffers(h, list, before, Buf(arr, |types| * ATTRIBUTE_SIZE));
    ghost var live, offered := h.live, list[..];
    OffersMatch(types, first.reply, live, offered, allocs);
    var rv;
    rv, second := tok.GetAttributeValue(h, list);
    FilledKeepsAdded(before, live, h.live, offered, second.reply, Template(Buf(arr, |types| * ATTRIBUTE_SIZE), allocs));
    if !PartialOK(rv) {
      FreeAttributes(h, Template(Buf(arr, |types| * ATTRIBUTE_SIZE), allocs), before);
      return Failed(Refused(rv)), second;
    }
    assert forall i | 0 <= i < |types| :: list[i] == list[..][i] == offered[i].(len := second.reply.len(i));
    var out := CopyOut(h, list, allocs);
    CopiedMatches(types, [first, second], live, h.live, offered, allocs, out);
    FreeAttributes(h, Template(Buf(arr, |types| * ATTRIBUTE_SIZE), allocs), before);
    return Read(out, rv), second;
  }

  /** The first pass: an array of the types with NULL pointers. */
  method FirstPass(h: Heap, tok: Token, types: seq<ULong>)
    returns (list: array<CkAttribute>, arr: Ptr, rv: ULong, ghost first: Call)
    requires h.Valid() && types != []
    modifies h, tok
    ensures h.Valid() && Added(old(h.live), h.live, Template(Buf(arr, |types| * ATTRIBUTE_SIZE), [])) && arr == old(h.next) && h.dirty == old(h.dirty)
    ensures fresh(list) && list.Length == |types|
    ensures first == old(tok.Answer(Queries(types))) && tok.calls == old(tok.calls) + [first]
    ensures rv == first.reply.rv
    ensures forall i | 0 <= i < |types| :: list[i] == CkAttribute(types[i], NULL, first.reply.len(i))
  {
    var n := |types|;
    arr := h.Malloc(n * ATTRIBUTE_SIZE);
    list := new CkAttribute[n](i requires 0 <= i < n => CkAttribute(types[i], NULL, 0));
    assert Slots(h.live, list[..]) == Queries(types);
    ghost var live, queried := h.live, list[..];
    assert live - Addresses([]) - {arr} == old(h.live);
    rv, first := tok.GetAttributeValue(h, list);
    FilledNothing(live, h.live, queried, first.reply);
    forall i | 0 <= i < n ensures list[i] == CkAttribute(types[i], NULL, first.reply.len(i)) {
      assert list[i] == list[..][i];
    }
  }

  /** Both passes, for types that none of the guards rejected. */
  method TwoPasses(h: Heap, tok: Token, types: seq<ULong>) returns (r: Result, ghost run: seq<Call>)
    requires h.Valid() && types != [] && !HasArray(types)
    modifies h, tok
    ensures h.Valid() && h.live == old(h.live)
    ensures old(h.dirty) <= h.dirty <= old(h.dirty) + {old(h.next)}
    ensures tok.calls == old(tok.calls) + run && Replied(tok.script, |old(tok.calls)|, run)
    ensures Run(types, run) && r == Outcome(types, run)
  {
    ghost var first, second;
    var list, arr, rv;
    list, arr, rv, first := FirstPass(h, tok, types);
    if !PartialOK(rv) {
      FreeAttributes(h, Template(Buf(arr, |types| * ATTRIBUTE_SIZE), []), old(h.live));
      return Failed(Refused(rv)), [first];
    }
    r, second := SecondPass(h, tok, types, list, arr, first, old(h.live));
    run := [first, second];
  }

  /** Ctx.GetAttributeValue. For every module: one entry per requested type in
      order, at most two calls, no copy beyond a buffer, every value buffer
      scrubbed at its recorded size and given back once, on every return. */
  method GetAttributeValue(h: Heap, tok: Token, types: seq<ULong>) returns (r: Result, ghost run: seq<Call>)
    requires h.Valid()
    modifies h, tok
    ensures h.Valid() && h.live == old(h.live)
    ensures old(h.dirty) <= h.dirty <= old(h.dirty) + {old(h.next)}
    ensures tok.calls == old(tok.calls) + run && Replied(tok.script, |old(tok.calls)|, run)
    ensures Run(types, run) && r == Outcome(types, run) && Explained(types, r, run)
  {
    run := [];
    if |types| == 0 {
      return Read([], CKR_OK), run;
    }
    for i := 0 to |types|
      invariant forall k | 0 <= k < i :: !IsArrayAttribute(types[k])
    {
      if IsArrayAttribute(types[i]) {
        FirstArrayIs(types, i);
        RunIsExplained(types, run);
        return Failed(ArrayAttribute(types[i])), run;
      }
    }
    r, run := TwoPasses(h, tok, types);
    RunIsExplained(types, run);
  }

  lemma {:induction false} FirstArrayIs(types: seq<ULong>, i: nat)
    requires i < |types| && IsArrayAttribute(types[i])
    requires forall k | 0 <= k < i :: !IsArrayAttribute(types[k])
    ensures HasArray(types) && FirstArray(types) == types[i]
  {
    assert types[i] in types;
    if i > 0 {
      assert types[1..][i - 1] == types[i];
      FirstArrayIs(types[1..], i - 1);
    }
  }

  lemma OffersMatch(types: seq<ULong>, first: Reply, live: map<Ptr, seq<Byte>>, list: seq<CkAttribute>, allocs: seq<Buf>)
    requires |list| == |types| == |allocs| && Owned(live, allocs)
    requires forall i | 0 <= i < |list| :: BufferFor(live, CkAttribute(types[i], NULL, first.len(i)), list[i], allocs[i])
    ensures Backed(live, list) && Slots(live, list) == Offers(types, first)
  {
    forall i, j | 0 <= i < j < |list| && list[i].pValue != NULL ensures list[i].pValue != list[j].pValue {
      assert allocs[i].p == list[i].pValue && allocs[j].p == list[j].pValue;
    }
  }

  lemma CopiedMatches(types: seq<ULong>, run: seq<Call>, live: map<Ptr, seq<Byte>>, after: map<Ptr, seq<Byte>>,
                      list: seq<CkAttribute>, allocs: seq<Buf>, out: seq<Attribute>)
    requires Run(types, run) && |run| == 2 && PartialOK(run[1].reply.rv)
    requires |list| == |types| == |allocs| == |out| && Owned(live, allocs) && Owned(after, allocs)
    requires forall i | 0 <= i < |list| ::
               BufferFor(live, CkAttribute(types[i], NULL, run[0].reply.len(i)), list[i], allocs[i])
    requires Backed(live, list) && Filled(live, after, list, run[1].reply)
    requires forall i | 0 <= i < |out| :: out[i] == Attribute(types[i], Usable(after, allocs[i], run[1].reply.len(i)))
    ensures Outcome(types, run) == Read(out, run[1].reply.rv)
  {
    forall i | 0 <= i < |out|
      ensures Usable(after, allocs[i], run[1].reply.len(i)) ==
              Copied(Offer(types[i], run[0].reply.len(i)), run[1].reply.len(i), run[1].reply.data(i))
    {
      assert BufferFor(live, CkAttribute(types[i], NULL, run[0].reply.len(i)), list[i], allocs[i]);
    }
  }
}
