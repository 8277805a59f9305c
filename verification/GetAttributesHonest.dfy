/** What GetAttributeValue returns for a token whose object does not change
  between the passes, and what it can never return for any token. */
module GetAttributesHonest {
  import opened Common
  import opened CHeap
  import opened Marshal
  import opened GetAttributes

  /** The readable attributes of an object. A length must be expressible and
      differ from the unavailable marker. */
  type Object = o: map<ULong, seq<Byte>> | forall t | t in o :: |o[t]| < UNAVAILABLE witness map[]

  /** Section 5.7 for one attribute: its length for a NULL pointer, its bytes
      for a buffer with room, the unavailable marker otherwise. */
  predicate HonestSlot(stored: Object, slot: Slot, len: ULong, data: seq<Byte>) {
    if slot.typ !in stored then len == 0xFFFF_FFFF_FFFF_FFFF
    else if slot.Ask? then len == |stored[slot.typ]|
    else if |stored[slot.typ]| <= slot.len then len == |stored[slot.typ]| && stored[slot.typ] <= data
    else len == 0xFFFF_FFFF_FFFF_FFFF
  }

  /** And for the call: 0 when every attribute is there, else the code for a
      sensitive attribute, 0x11, or for one the object does not have, 0x12. */
  predicate Honest(stored: Object, call: Call) {
    && (forall i | 0 <= i < |call.slots| :: HonestSlot(stored, call.slots[i], call.reply.len(i), call.reply.data(i)))
    && (if forall i | 0 <= i < |call.slots| :: call.slots[i].typ in stored then call.reply.rv == 0
        else call.reply.rv == 0x11 || call.reply.rv == 0x12)
  }

  /** A plain lookup, nil for what cannot be read. The length of a value passes
      through a C int on its way out. */
  function Lookup(stored: Object, t: ULong): (v: seq<Byte>)
  {
    if t !in stored then []
    else
      CIntNeverExceeds(|stored[t]|);
      if CInt(|stored[t]|) > 0 then stored[t][..CInt(|stored[t]|)] else []
  }

  /** The lookup is the stored value exactly when that is shorter than 2^31. */
  lemma LookupIsValue(stored: Object, t: ULong)
    requires t in stored
    ensures Lookup(stored, t) == stored[t] <==> |stored[t]| < 0x8000_0000
  {
    CIntNeverExceeds(|stored[t]|);
  }

  lemma {:induction false} CopiesLookup(stored: Object, t: ULong, first: ULong, second: ULong, data: seq<Byte>)
    requires HonestSlot(stored, Ask(t, 0), first, [])
    requires HonestSlot(stored, Offer(t, first), second, data)
    ensures Copied(Offer(t, first), second, data) == Lookup(stored, t)
  {
    CIntNeverExceeds(second);
    if t in stored && first > 0 {
      var slot := Offer(t, first);
      assert Written(slot.buffer, slot.len, data) == stored[t];
    }
  }

  /** The result is the lookup of every requested type in order, and its error is
      nil exactly when all of them can be read. */
  ghost predicate IsLookup(r: Result, types: seq<ULong>, stored: Object) {
    && r.Read? && |r.attributes| == |types|
    && (forall i | 0 <= i < |types| ::
          r.attributes[i].typ == types[i] && r.attributes[i].value == Lookup(stored, types[i]))
    && (r.rv == CKR_OK <==> forall i | 0 <= i < |types| :: types[i] in stored)
  }

  /** For an object that stays the same, GetAttributeValue is a lookup. */
  lemma {:induction false} EqualsLookup(types: seq<ULong>, run: seq<Call>, stored: Object)
    requires Run(types, run) && !HasArray(types)
    requires forall k | 0 <= k < |run| :: Honest(stored, run[k])
    ensures IsLookup(Outcome(types, run), types, stored)
  {
    if types != [] {
      assert Honest(stored, run[0]) && Honest(stored, run[1]);
      forall i | 0 <= i < |types|
        ensures Copied(Offer(types[i], run[0].reply.len(i)), run[1].reply.len(i), run[1].reply.data(i)) == Lookup(stored, types[i])
        ensures run[1].slots[i].typ == types[i]
      {
        assert run[0].slots[i] == Ask(types[i], 0) && run[1].slots[i] == Offer(types[i], run[0].reply.len(i));
        CopiesLookup(stored, types[i], run[0].reply.len(i), run[1].reply.len(i), run[1].reply.data(i));
      }
      if forall i | 0 <= i < |types| :: types[i] in stored {
        forall i | 0 <= i < |types| ensures run[1].slots[i].typ in stored {
          assert run[1].slots[i].typ == types[i];
        }
      } else {
        var i :| 0 <= i < |types| && types[i] !in stored;
        assert run[1].slots[i].typ !in stored;
      }
    }
  }

  /** For every token, however it changes the lengths between the passes: the
      requested types come back in order, and a value never exceeds what was
      allocated for it after the first pass. */
  lemma {:induction false} NeverBeyondAllocation(types: seq<ULong>, run: seq<Call>, i: nat)
    requires Run(types, run) && Outcome(types, run).Read? && i < |types|
    ensures |Outcome(types, run).attributes| == |types| && |run| == 2
    ensures var a := Outcome(types, run).attributes[i];
            && a.typ == types[i]
            && (a.value != [] ==> run[0].reply.len(i) != UNAVAILABLE && |a.value| <= run[0].reply.len(i))
            && (a.value != [] ==> |a.value| <= run[1].reply.len(i) != UNAVAILABLE)
            && (a.value != [] && |a.value| < run[1].reply.len(i) ==> run[1].reply.len(i) >= 0x1_0000_0000)
  {
    var slot := Offer(types[i], run[0].reply.len(i));
    CIntNeverExceeds(run[1].reply.len(i));
  }

  // ---- Calls ----------------------------------------------------------------------

  function Reaction(script: (nat, seq<Slot>) -> Reply, n: nat, slots: seq<Slot>): Call {
    Call(slots, script(n, slots))
  }

  /** A token that keeps to the standard, whatever it is asked, over an object
      that stays the same. */
  ghost predicate KeepsStandard(script: (nat, seq<Slot>) -> Reply, stored: Object) {
    forall n: nat, slots: seq<Slot> :: Honest(stored, Reaction(script, n, slots))
  }

  lemma RepliesAreHonest(script: (nat, seq<Slot>) -> Reply, start: nat, run: seq<Call>, stored: Object)
    requires KeepsStandard(script, stored) && Replied(script, start, run)
    ensures forall k | 0 <= k < |run| :: Honest(stored, run[k])
  {
    forall k | 0 <= k < |run| ensures Honest(stored, run[k]) {
      assert run[k] == Reaction(script, start + k, run[k].slots);
    }
  }

  /** GetAttributeValue called on such a token. */
  method ReadHonest(h: Heap, tok: Token, types: seq<ULong>, ghost stored: Object) returns (r: Result)
    requires h.Valid() && KeepsStandard(tok.script, stored)
    modifies h, tok
    ensures h.Valid() && h.live == old(h.live)
    ensures if HasArray(types) then r == Failed(ArrayAttribute(FirstArray(types))) else IsLookup(r, types, stored)
  {
    ghost var start := |tok.calls|;
    ghost var run;
    r, run := GetAttributeValue(h, tok, types);
    RepliesAreHonest(tok.script, start, run, stored);
    if !HasArray(types) {
      EqualsLookup(types, run, stored);
    } else {
      assert types != [];
    }
  }

  /** A token that does: the lengths and bytes of the object, and a soft error
      when an attribute cannot be read. */
  function StandardReply(stored: Object, soft: ULong, slots: seq<Slot>): Reply {
    Reply(if forall i | 0 <= i < |slots| :: slots[i].typ in stored then 0 else soft,
          (i: nat) => if i < |slots| then StandardLen(stored, slots[i]) else 0,
          (i: nat) => if i < |slots| && slots[i].typ in stored then stored[slots[i].typ] else [])
  }

  function StandardLen(stored: Object, slot: Slot): ULong {
    if slot.typ in stored && (slot.Ask? || |stored[slot.typ]| <= slot.len) then |stored[slot.typ]| else UNAVAILABLE
  }

  ghost predicate IsStandard(script: (nat, seq<Slot>) -> Reply, stored: Object, soft: ULong) {
    forall n: nat, slots: seq<Slot> :: script(n, slots) == StandardReply(stored, soft, slots)
  }

  lemma StandardKeeps(script: (nat, seq<Slot>) -> Reply, stored: Object, soft: ULong)
    requires IsStandard(script, stored, soft) && (soft == 0x11 || soft == 0x12)
    ensures KeepsStandard(script, stored)
  {
    forall n: nat, slots: seq<Slot> ensures Honest(stored, Reaction(script, n, slots)) {
      assert Reaction(script, n, slots).reply == StandardReply(stored, soft, slots);
    }
  }

  /** On such a token the result is the lookup, with the token's own soft error
      where some attribute is missing. */
  lemma StandardRun(script: (nat, seq<Slot>) -> Reply, start: nat, types: seq<ULong>, run: seq<Call>, stored: Object, soft: ULong)
    requires IsStandard(script, stored, soft) && (soft == 0x11 || soft == 0x12)
    requires Run(types, run) && types != [] && !HasArray(types) && Replied(script, start, run)
    ensures IsLookup(Outcome(types, run), types, stored)
    ensures Outcome(types, run).rv == if forall i | 0 <= i < |types| :: types[i] in stored then 0 else soft
  {
    StandardKeeps(script, stored, soft);
    RepliesAreHonest(script, start, run, stored);
    EqualsLookup(types, run, stored);
    LastCode(script, start, types, run, stored, soft);
  }

  lemma LastCode(script: (nat, seq<Slot>) -> Reply, start: nat, types: seq<ULong>, run: seq<Call>, stored: Object, soft: ULong)
    requires IsStandard(script, stored, soft) && Replied(script, start, run)
    requires Run(types, run) && types != [] && !HasArray(types) && Outcome(types, run).Read?
    ensures Outcome(types, run).rv == if forall i | 0 <= i < |types| :: types[i] in stored then 0 else soft
  {
    assert run[1].reply == StandardReply(stored, soft, run[1].slots);
    forall i | 0 <= i < |types| ensures run[1].slots[i].typ == types[i] {
      assert run[1].slots[i] == Offer(types[i], run[0].reply.len(i));
    }
  }

  method ReadStandard(h: Heap, tok: Token, types: seq<ULong>, ghost stored: Object, ghost soft: ULong) returns (r: Result)
    requires h.Valid() && IsStandard(tok.script, stored, soft)
    requires !HasArray(types) && types != [] && (soft == 0x11 || soft == 0x12)
    modifies h, tok
    ensures h.Valid() && h.live == old(h.live) && IsLookup(r, types, stored)
    ensures r.rv == if forall i | 0 <= i < |types| :: types[i] in stored then 0 else soft
  {
    ghost var start, run := |tok.calls|, [];
    r, run := GetAttributeValue(h, tok, types);
    StandardRun(tok.script, start, types, run, stored, soft);
  }

  /** The label and the modulus of a secret key, which has a label and no
      modulus, from a token that answers 0x12: the label, nil, and that code. */
  method LabelOfSecretKey() returns (r: Result)
    ensures r.Read? && |r.attributes| == 2 && r.rv == 0x12
    ensures r.attributes[0].typ == 3 && r.attributes[0].value == [75, 49]
    ensures r.attributes[1].typ == 0x120 && r.attributes[1].value == []
  {
    var h := new Heap((p: Ptr, i: nat) => 0);
    var stored: Object := map[3 := [75, 49]];
    var types: seq<ULong> := [3, 0x120];
    KeyHasNoNested(types);
    var tok := new Token((n: nat, slots: seq<Slot>) => StandardReply(stored, 0x12, slots));
    r := ReadStandard(h, tok, types, stored, 0x12);
    assert types[0] in stored && types[1] !in stored;
  }

  lemma KeyHasNoNested(types: seq<ULong>)
    requires types == [3, 0x120]
    ensures !HasArray(types)
  {
  }

  /** Two values that are not read: 2^31 bytes come back as nothing, and five
      bytes more than 2^32 as five. */
  lemma LargeValuesLost() returns (stored: Object)
    ensures 1 in stored && |stored[1]| == 0x8000_0000 && Lookup(stored, 1) == []
    ensures 2 in stored && |stored[2]| == 0x1_0000_0005 && |Lookup(stored, 2)| == 5
  {
    stored := map[1 := Zeros(0x8000_0000), 2 := Zeros(0x1_0000_0005)];
  }
}
