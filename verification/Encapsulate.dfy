/** KEM encapsulation (cryptoki/v32.go): the module creates a key object as a
  side effect, and the binding must neither lose one nor invent one. */
module Encapsulate {
  import opened Common
  import opened CHeap
  import opened Marshal
  import opened Mechanism

  datatype Reply = Reply(rv: ULong, len: ULong, data: seq<Byte>)
  datatype Error = Rejected(mechanism: ULong) | TemplatePanic | Refused(rv: ULong) | TooLarge(size: ULong) | Overrun(size: ULong, capacity: ULong)
  datatype Result = Encapsulated(ciphertext: seq<Byte>, key: nat) | Failed(error: Error)

  /** A token with key objects. It may return any code, any length and any
      bytes; a key appears exactly when a call with a ciphertext buffer
      succeeds, and destroying an existing object works. Handle 0 is
      CK_INVALID_HANDLE. */
  class Token {
    const script: nat -> Reply
    var calls: nat
    var keys: set<nat>
    var nextKey: nat

    ghost predicate Valid()
      reads this
    {
      0 < nextKey && forall k | k in keys :: 0 < k < nextKey
    }

    constructor (script: nat -> Reply)
      ensures Valid() && keys == {} && calls == 0 && this.script == script
    {
      this.script := script;
      calls, keys, nextKey := 0, {}, 1;
    }

    /** C_EncapsulateKey; `key` is the out-parameter's value before and after. */
    method EncapsulateKey(h: Heap, out: Ptr, len: ULong, key: nat) returns (rv: ULong, newLen: ULong, newKey: nat)
      requires Valid() && h.Valid() && (out != NULL ==> out in h.live && len <= |h.live[out]|)
      modifies this, h`live
      ensures Valid() && h.Valid() && calls == old(calls) + 1
      ensures rv == script(old(calls)).rv && newLen == script(old(calls)).len
      ensures if rv == CKR_OK && out != NULL then newKey !in old(keys) && newKey != 0 && keys == old(keys) + {newKey}
              else newKey == key && keys == old(keys)
      ensures out == NULL ==> h.live == old(h.live)
      ensures out != NULL ==> h.live == old(h.live)[out := Written(old(h.live)[out], len, script(old(calls)).data)]
    {
      var reply := script(calls);
      calls := calls + 1;
      rv, newLen, newKey := reply.rv, reply.len, key;
      if out != NULL {
        h.Write(out, len, reply.data);
        if rv == CKR_OK {
          newKey := nextKey;
          keys, nextKey := keys + {newKey}, nextKey + 1;
        }
      }
    }

    /** C_DestroyObject */
    method DestroyObject(key: nat)
      requires Valid()
      modifies this`keys
      ensures Valid() && keys == old(keys) - {key}
    {
      keys := keys - {key};
    }
  }

  /** The error a pair of replies leads to. */
  function Verdict(sizing: Reply, data: Reply): Option<Error> {
    if sizing.rv != CKR_OK then Some(Refused(sizing.rv))
    else if sizing.len > MAX_OUT_BUF then Some(TooLarge(sizing.len))
    else if data.rv != CKR_OK then Some(Refused(data.rv))
    else if data.len > sizing.len then Some(Overrun(data.len, sizing.len))
    else None
  }

  /** The ciphertext for the two replies: as many bytes as were reported, first
      those the module wrote within its room, then what the block held before. */
  predicate CiphertextOf(ciphertext: seq<Byte>, sizing: Reply, data: Reply, block: seq<Byte>)
    requires |block| == sizing.len
  {
    && |ciphertext| == data.len <= |block|
    && forall j | 0 <= j < |ciphertext| ::
         ciphertext[j] == if j < |data.data| then data.data[j] else block[j]
  }

  /** r is the result for the two replies and a buffer at p: the error they lead
      to, or the ciphertext. */
  predicate AnswersAt(h: Heap, p: Ptr, r: Result, sizing: Reply, data: Reply) {
    match Verdict(sizing, data)
    case Some(error) => r == Failed(error)
    case None => r.Encapsulated? && CiphertextOf(r.ciphertext, sizing, data, h.Junk(p, sizing.len))
  }

  /** r is the result for the two replies and some fresh buffer. */
  ghost predicate Answers(h: Heap, r: Result, sizing: Reply, data: Reply) {
    exists p: Ptr :: AnswersAt(h, p, r, sizing, data)
  }

  /** What the caller gets, in terms of the two replies alone: the code of the
      pass that was refused; a length beyond 64 MiB or beyond the allocation; or as
      many bytes as were reported, those of the module as far as it wrote them. */
  predicate Explained(r: Result, sizing: Reply, data: Reply) {
    match r
    case Failed(Refused(code)) =>
      if sizing.rv != 0 then code == sizing.rv else sizing.len <= 67108864 && code == data.rv != 0
    case Failed(TooLarge(size)) => sizing.rv == 0 && size == sizing.len > 67108864
    case Failed(Overrun(size, capacity)) =>
      sizing.rv == 0 && sizing.len <= 67108864 && data.rv == 0 && size == data.len > capacity == sizing.len
    case Encapsulated(ciphertext, _) =>
      && sizing.rv == 0 && sizing.len <= 67108864 && data.rv == 0 && |ciphertext| == data.len <= sizing.len
      && forall j | 0 <= j < |ciphertext| && j < |data.data| :: ciphertext[j] == data.data[j]
    case Failed(_) => false
  }

  ghost predicate AnswersAndExplained(h: Heap, r: Result, sizing: Reply, data: Reply) {
    Answers(h, r, sizing, data) && Explained(r, sizing, data)
  }

  lemma AnswersExplained(h: Heap, r: Result, sizing: Reply, data: Reply)
    requires Answers(h, r, sizing, data)
    ensures Explained(r, sizing, data)
  {
    var p: Ptr :| AnswersAt(h, p, r, sizing, data);
  }

  /** The keys before and after a call with result r. */
  predicate KeysKept(r: Result, before: set<nat>, after: set<nat>) {
    match r
    case Failed(_) => after == before
    case Encapsulated(_, key) => key != 0 && key !in before && after == before + {key}
  }

  /** The data pass for a sizing pass that reported `allocLen`. The native
      size check against the C int range follows from the limit and is not
      repeated. */
  method DataPass(h: Heap, tok: Token, sizing: Reply) returns (r: Result)
    requires h.Valid() && tok.Valid() && sizing.rv == CKR_OK && sizing.len <= MAX_OUT_BUF
    modifies h, tok
    ensures h.Valid() && tok.Valid() && h.live == old(h.live) && h.dirty <= old(h.dirty) + {old(h.next)}
    ensures AnswersAt(h, old(h.next), r, sizing, tok.script(old(tok.calls)))
    ensures sizing.len > 0 ==> KeysKept(r, old(tok.keys), tok.keys)
    ensures sizing.len == 0 ==> tok.keys == old(tok.keys) && (r.Encapsulated? ==> r == Encapsulated([], 0))
  {
    var allocLen := sizing.len;
    var buf := NULL;
    if allocLen > 0 {
      buf := h.Malloc(allocLen);
      assert h.live - {buf} == old(h.live);
    }
    ghost var block := h.Junk(old(h.next), allocLen);
    ghost var data := tok.script(tok.calls);
    var rv, ctLen, key := tok.EncapsulateKey(h, buf, allocLen, 0);
    assert h.live - {buf} == old(h.live);
    if rv == CKR_OK && ctLen > allocLen {
      tok.DestroyObject(key);
    }
    var ct: seq<Byte> := [];
    if rv == CKR_OK && 0 < ctLen <= allocLen {
      ct := h.live[buf][..ctLen];
      CiphertextWritten(block, sizing, data);
    }
    h.FreeGuarded(buf);
    r := if rv != CKR_OK then Failed(Refused(rv))
         else if ctLen > allocLen then Failed(Overrun(ctLen, allocLen))
         else Encapsulated(ct, key);
  }

  lemma CiphertextWritten(block: seq<Byte>, sizing: Reply, data: Reply)
    requires |block| == sizing.len && data.len <= sizing.len
    ensures CiphertextOf(Written(block, sizing.len, data.data)[..data.len], sizing, data, block)
  {
  }

  /** The sizing pass, then the data pass when the size is within the limit. */
  method TwoPasses(h: Heap, tok: Token) returns (r: Result)
    requires h.Valid() && tok.Valid()
    modifies h, tok
    ensures h.Valid() && tok.Valid() && h.live == old(h.live) && h.dirty <= old(h.dirty) + {old(h.next)}
    ensures AnswersAt(h, old(h.next), r, tok.script(old(tok.calls)), tok.script(old(tok.calls) + 1))
    ensures tok.script(old(tok.calls)).len > 0 || r.Failed? ==> KeysKept(r, old(tok.keys), tok.keys)
    ensures tok.script(old(tok.calls)).len == 0 && r.Encapsulated? ==> r == Encapsulated([], 0) && tok.keys == old(tok.keys)
  {
    ghost var sizing := tok.script(tok.calls);
    var rv, ctLen, key := tok.EncapsulateKey(h, NULL, 0, 0);
    if rv != CKR_OK {
      return Failed(Refused(rv));
    }
    if ctLen > MAX_OUT_BUF {
      return Failed(TooLarge(ctLen));
    }
    r := DataPass(h, tok, Reply(rv, ctLen, []));
  }

  /** Both passes with the template in native memory. */
  method WithTemplate(h: Heap, tok: Token, tmpl: seq<Attribute>) returns (r: Result)
    requires h.Valid() && tok.Valid()
    modifies h, tok
    ensures h.Valid() && tok.Valid() && h.live == old(h.live)
    ensures if tmpl != [] && !Fits(|tmpl|, ATTRIBUTE_SIZE) then r == Failed(TemplatePanic)
            else Answers(h, r, tok.script(old(tok.calls)), tok.script(old(tok.calls) + 1))
    ensures KeysKept(r, old(tok.keys), tok.keys) <==> r.Failed? || tok.script(old(tok.calls)).len > 0
    ensures r.Encapsulated? && tok.script(old(tok.calls)).len == 0 ==> r == Encapsulated([], 0) && tok.keys == old(tok.keys)
  {
    var ok, list, attrs := Attributes(h, tmpl);
    if !ok {
      return Failed(TemplatePanic);
    }
    r := TwoPasses(h, tok);
    FreeAttributes(h, attrs, old(h.live));
  }

  /** Ctx.EncapsulateKey. Every path gives all native memory back, and every
      error leaves the keys as they were. A success created exactly the
      returned key if and only if the sizing pass reported a non-zero length;
      otherwise no key was created and the returned handle is 0. */
  method EncapsulateKey(h: Heap, tok: Token, p: Policy, m: Option<Mechanism>, tmpl: seq<Attribute>) returns (r: Result)
    requires h.Valid() && tok.Valid()
    modifies h, tok
    ensures h.Valid() && tok.Valid() && h.live == old(h.live)
    ensures (m.Some? ==> Accepts(p, m.value)) <==> !(r.Failed? && r.error.Rejected?)
    ensures r.Failed? && r.error.Rejected? ==> m.Some? && Rejects(p, m.value, r.error.mechanism)
    ensures !(r.Failed? && r.error.Rejected?) ==>
              if tmpl != [] && !Fits(|tmpl|, ATTRIBUTE_SIZE) then r == Failed(TemplatePanic)
              else AnswersAndExplained(h, r, tok.script(old(tok.calls)), tok.script(old(tok.calls) + 1))
    ensures KeysKept(r, old(tok.keys), tok.keys) <==> r.Failed? || tok.script(old(tok.calls)).len > 0
    ensures r.Encapsulated? && tok.script(old(tok.calls)).len == 0 ==> r == Encapsulated([], 0) && tok.keys == old(tok.keys)
  {
    var rejected, mech := Build(h, p, m);
    if rejected.Some? {
      return Failed(Rejected(rejected.value));
    }
    ghost var sizing, data := tok.script(tok.calls), tok.script(tok.calls + 1);
    r := WithTemplate(h, tok, tmpl);
    if Answers(h, r, sizing, data) {
      AnswersExplained(h, r, sizing, data);
    }
    FreeMechanism(h, mech, old(h.live));
  }

  /** A token that gives a length within the limit and then writes a ciphertext
      that fits: exactly these bytes come back, with the one new key. */
  method WholeCiphertext(h: Heap, tok: Token, p: Policy, m: Option<Mechanism>, tmpl: seq<Attribute>) returns (r: Result)
    requires h.Valid() && tok.Valid() && (m.Some? ==> Accepts(p, m.value)) && |tmpl| * 24 <= 67108864
    requires var sizing, data := tok.script(tok.calls), tok.script(tok.calls + 1);
             sizing.rv == 0 && 0 < sizing.len <= 67108864 && data.rv == 0 && data.len <= sizing.len && data.len <= |data.data|
    modifies h, tok
    ensures h.Valid() && tok.Valid() && h.live == old(h.live)
    ensures r.Encapsulated? && tok.keys == old(tok.keys) + {r.key} && r.key !in old(tok.keys) && r.key != 0
    ensures var data := tok.script(old(tok.calls) + 1); r.ciphertext == data.data[..data.len]
  {
    FitsIsExact(|tmpl|, ATTRIBUTE_SIZE);
    r := EncapsulateKey(h, tok, p, m, tmpl);
  }

  /** Where the key is lost: a module that reports a ciphertext of length zero
      gets two sizing calls, and the caller a handle of no object. */
  method SuccessWithoutKey() returns (r: Result, created: set<nat>)
    ensures r == Encapsulated([], 0) && created == {}
  {
    var h := new Heap((p: Ptr, i: nat) => 0);
    var tok := new Token((n: nat) => Reply(CKR_OK, 0, []));
    r := EncapsulateKey(h, tok, Policy(None, map[], map[]), None, []);
    created := tok.keys;
  }

  /** Memory the module never wrote, returned as a ciphertext: it reports two
      bytes and writes none. */
  method UnwrittenCiphertext() returns (r: Result)
    ensures r.Encapsulated? && r.ciphertext == [7, 7]
  {
    var h := new Heap((p: Ptr, i: nat) => 7);
    var tok := new Token((n: nat) => Reply(CKR_OK, 2, []));
    r := EncapsulateKey(h, tok, Policy(None, map[], map[]), None, []);
  }
}
