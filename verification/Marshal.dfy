/** Building CK_ATTRIBUTE arrays in C memory and giving them back
  (cryptoki/marshal.go). */
module Marshal {
  import opened Common
  import opened CHeap

  /** sizeof(CK_ATTRIBUTE) under LP64. */
  const ATTRIBUTE_SIZE: nat := 24

  /** A Go attribute; the empty value is nil. */
  datatype Attribute = Attribute(typ: ULong, value: GoBytes)
  /** A CK_ATTRIBUTE. */
  datatype CkAttribute = CkAttribute(typ: ULong, pValue: Ptr, len: ULong)
  /** A value buffer with the size it was allocated with; NULL for none. */
  datatype Buf = Buf(p: Ptr, size: nat)

  /** cAttributesFits */
  predicate Fits(n: int, elemSize: nat) {
    if n < 0 || elemSize == 0 then false else n <= MAX_OUT_BUF / elemSize
  }

  /** The guard admits exactly the sizes within the limit, so the product does
      not wrap even in a 32-bit size_t. */
  lemma {:induction false} FitsIsExact(n: int, elemSize: nat)
    ensures Fits(n, elemSize) <==> 0 <= n && 0 < elemSize && n * elemSize <= 67108864
    ensures Fits(n, elemSize) ==> n * elemSize < 0x1_0000_0000
  {
    if 0 <= n && 0 < elemSize {
      var q := MAX_OUT_BUF / elemSize;
      assert MAX_OUT_BUF == q * elemSize + MAX_OUT_BUF % elemSize;
      if n <= q {
        assert n * elemSize <= q * elemSize;
      } else {
        assert n * elemSize >= (q + 1) * elemSize;
      }
    }
  }

  function Addresses(bufs: seq<Buf>): set<Ptr> {
    set i | 0 <= i < |bufs| :: bufs[i].p
  }

  /** Each buffer is a live block of its recorded size, no block twice. */
  predicate Owned(live: map<Ptr, seq<Byte>>, bufs: seq<Buf>) {
    && (forall i | 0 <= i < |bufs| :: bufs[i].p != NULL ==> bufs[i].p in live && |live[bufs[i].p]| == bufs[i].size)
    && (forall i, j | 0 <= i < j < |bufs| :: bufs[i].p != NULL ==> bufs[i].p != bufs[j].p)
  }

  /** Scrub each buffer at its recorded size and give it back. */
  method ReleaseAll(h: Heap, bufs: seq<Buf>)
    requires h.Valid() && Owned(h.live, bufs)
    modifies h
    ensures h.Valid() && h.live == old(h.live) - Addresses(bufs)
    ensures h.dirty == old(h.dirty) && h.next == old(h.next) && h.sizes == old(h.sizes)
  {
    for i := 0 to |bufs|
      invariant h.Valid() && h.live == old(h.live) - Addresses(bufs[..i])
      invariant h.dirty == old(h.dirty) && h.next == old(h.next) && h.sizes == old(h.sizes)
    {
      assert bufs[..i + 1] == bufs[..i] + [bufs[i]];
      assert Addresses(bufs[..i + 1]) == Addresses(bufs[..i]) + {bufs[i].p};
      h.ZFree(bufs[i].p, bufs[i].size);
    }
    assert bufs[..|bufs|] == bufs;
  }

  /** What a native reader finds in one CK_ATTRIBUTE. */
  function Decoded(live: map<Ptr, seq<Byte>>, a: CkAttribute): (ULong, seq<Byte>)
    requires a.pValue != NULL ==> a.pValue in live && a.len <= |live[a.pValue]|
  {
    (a.typ, if a.pValue == NULL then [] else live[a.pValue][..a.len])
  }

  /** The array reads back as the template; an absent or empty value is NULL
      with length 0. */
  predicate Describes(live: map<Ptr, seq<Byte>>, list: seq<CkAttribute>, tmpl: seq<Attribute>) {
    && |list| == |tmpl|
    && forall i | 0 <= i < |list| :: DescribesOne(live, list[i], tmpl[i])
  }

  predicate DescribesOne(live: map<Ptr, seq<Byte>>, a: CkAttribute, want: Attribute) {
    && (a.pValue != NULL ==> a.pValue in live && a.len <= |live[a.pValue]|)
    && Decoded(live, a) == (want.typ, want.value)
    && (want.value == [] <==> a.pValue == NULL) && a.len == |want.value|
  }

  /** The non-NULL values of an array, in order. */
  function Values(list: seq<CkAttribute>): (bufs: seq<Buf>) {
    if list == [] then []
    else
      var last := list[|list| - 1];
      Values(list[..|list| - 1]) + if last.pValue == NULL then [] else [Buf(last.pValue, last.len)]
  }

  /** Everything cAttributes allocated and has not given back. */
  datatype Template = Template(arr: Buf, values: seq<Buf>)

  /** The blocks of a template are exactly what `after` holds beyond `before`. */
  predicate Added(before: map<Ptr, seq<Byte>>, after: map<Ptr, seq<Byte>>, t: Template) {
    && Owned(after, t.values)
    && (t.arr.p != NULL ==> t.arr.p in after && |after[t.arr.p]| == t.arr.size && t.arr.p !in Addresses(t.values))
    && NULL !in after
    && after - Addresses(t.values) - {t.arr.p} == before
  }

  lemma AddedOne(before: map<Ptr, seq<Byte>>, after: map<Ptr, seq<Byte>>, t: Template, p: Ptr, b: seq<Byte>)
    requires Added(before, after, t) && p !in after && p != NULL
    ensures Added(before, after[p := b], t.(values := t.values + [Buf(p, |b|)]))
  {
    var values := t.values + [Buf(p, |b|)];
    assert Addresses(values) == Addresses(t.values) + {p} by {
      assert values[|t.values|].p == p;
      forall i | 0 <= i < |t.values| ensures t.values[i].p in Addresses(values) {
        assert values[i] == t.values[i];
      }
    }
    forall i | 0 <= i < |t.values| ensures t.values[i].p != p {
      assert t.values[i].p in Addresses(t.values);
    }
    assert after[p := b] - Addresses(values) - {t.arr.p} == before;
  }

  /** An entry without a buffer adds nothing. */
  lemma AddedNone(before: map<Ptr, seq<Byte>>, after: map<Ptr, seq<Byte>>, t: Template)
    requires Added(before, after, t)
    ensures Added(before, after, t.(values := t.values + [Buf(NULL, 0)]))
  {
    var values := t.values + [Buf(NULL, 0)];
    assert Addresses(values) == Addresses(t.values) + {NULL} by {
      assert values[|t.values|].p == NULL;
      forall i | 0 <= i < |t.values| ensures t.values[i].p in Addresses(values) {
        assert values[i] == t.values[i];
      }
    }
    assert after - Addresses(values) - {t.arr.p} == before;
  }

  lemma DescribesMore(live: map<Ptr, seq<Byte>>, after: map<Ptr, seq<Byte>>,
                      list: seq<CkAttribute>, tmpl: seq<Attribute>, a: CkAttribute, want: Attribute)
    requires Describes(live, list, tmpl) && DescribesOne(after, a, want)
    requires forall p | p in live :: p in after && after[p] == live[p]
    ensures Describes(after, list + [a], tmpl + [want])
    ensures Values(list + [a]) == Values(list) + if a.pValue == NULL then [] else [Buf(a.pValue, a.len)]
  {
    forall i | 0 <= i < |list| ensures DescribesOne(after, (list + [a])[i], (tmpl + [want])[i]) {
      assert DescribesOne(live, list[i], tmpl[i]);
    }
    assert (list + [a])[..|list|] == list;
  }

  /** One iteration of cAttributes: copy a value and describe it. */
  method Describe(h: Heap, want: Attribute, ghost before: map<Ptr, seq<Byte>>, ghost t: Template,
                  ghost built: seq<CkAttribute>, ghost done: seq<Attribute>)
    returns (a: CkAttribute)
    requires h.Valid() && Added(before, h.live, t) && Describes(h.live, built, done) && t.values == Values(built)
    modifies h
    ensures h.Valid() && h.dirty == old(h.dirty) && old(h.next) <= h.next
    ensures Describes(h.live, built + [a], done + [want])
    ensures Values(built + [a]) == if a.pValue == NULL then t.values else t.values + [Buf(a.pValue, a.len)]
    ensures Added(before, h.live, t.(values := Values(built + [a])))
  {
    var p, l := h.CBytes(want.value);
    a := CkAttribute(want.typ, p, l);
    if p != NULL {
      AddedOne(before, old(h.live), t, p, want.value);
      assert h.live[p][..l] == want.value;
    } else {
      assert t.values + [] == t.values;
    }
    DescribesMore(old(h.live), h.live, built, done, a, want);
  }

  /** The first i entries of the array describe the first i attributes, and the
      blocks of t are what was allocated for them. */
  ghost predicate Filling(h: Heap, list: array<CkAttribute>, tmpl: seq<Attribute>, i: nat, t: Template, before: map<Ptr, seq<Byte>>)
    reads h, list
    requires i <= list.Length == |tmpl|
  {
    h.Valid() && Added(before, h.live, t) && Describes(h.live, list[..i], tmpl[..i]) && t.values == Values(list[..i])
  }

  /** The loop body of cAttributes. */
  method FillEntry(h: Heap, list: array<CkAttribute>, tmpl: seq<Attribute>, i: nat, t: Template, ghost before: map<Ptr, seq<Byte>>)
    returns (t': Template)
    requires i < list.Length == |tmpl| && Filling(h, list, tmpl, i, t, before)
    modifies h, list
    ensures Filling(h, list, tmpl, i + 1, t', before) && h.dirty == old(h.dirty) && t'.arr == t.arr
  {
    ghost var built := list[..i];
    var a := Describe(h, tmpl[i], before, t, built, tmpl[..i]);
    t' := if a.pValue != NULL then t.(values := t.values + [Buf(a.pValue, a.len)]) else t;
    list[i] := a;
    assert tmpl[..i + 1] == tmpl[..i] + [tmpl[i]];
    assert list[..i + 1] == built + [a];
  }

  /** cAttributes. `ok` is false for the panic on an oversized template. */
  method Attributes(h: Heap, tmpl: seq<Attribute>) returns (ok: bool, list: array<CkAttribute>, t: Template)
    requires h.Valid()
    modifies h
    ensures h.Valid() && fresh(list) && h.dirty == old(h.dirty)
    ensures ok == (|tmpl| * 24 <= 67108864)
    ensures Added(old(h.live), h.live, t)
    ensures ok ==> Describes(h.live, list[..], tmpl) && t.values == Values(list[..])
    ensures !ok || tmpl == [] ==> t == Template(Buf(NULL, 0), []) && h.next == old(h.next)
    ensures ok && tmpl != [] ==> t.arr == Buf(old(h.next), |tmpl| * ATTRIBUTE_SIZE) && t.arr.size <= MAX_OUT_BUF
  {
    var n := |tmpl|;
    if n == 0 || !Fits(n, ATTRIBUTE_SIZE) {
      return n == 0, new CkAttribute[0], Template(Buf(NULL, 0), []);
    }
    FitsIsExact(n, ATTRIBUTE_SIZE);
    var arr := h.Malloc(n * ATTRIBUTE_SIZE);
    list := new CkAttribute[n];
    t := Template(Buf(arr, n * ATTRIBUTE_SIZE), []);
    assert h.live - Addresses([]) - {arr} == old(h.live);
    for i := 0 to n
      invariant Filling(h, list, tmpl, i, t, old(h.live))
      invariant h.dirty == old(h.dirty) && t.arr == Buf(arr, n * ATTRIBUTE_SIZE)
    {
      t := FillEntry(h, list, tmpl, i, t, old(h.live));
    }
    assert list[..n] == list[..] && tmpl[..n] == tmpl;
    ok := true;
  }

  /** The cleanup cAttributes returns. */
  method FreeAttributes(h: Heap, t: Template, ghost before: map<Ptr, seq<Byte>>)
    requires h.Valid() && Added(before, h.live, t)
    modifies h
    ensures h.Valid() && h.live == before
    ensures old(h.dirty) <= h.dirty <= old(h.dirty) + {t.arr.p} && h.next == old(h.next)
  {
    ReleaseAll(h, t.values);
    if t.arr.p != NULL {
      h.Free(t.arr.p);
    }
  }
}
