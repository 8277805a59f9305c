/** CK_ULONG values as native bytes on little-endian targets. */
module ULongBytes {
  import opened Common
  import opened CHeap

  /** 256 to the power w: the number of values a word of w bytes holds. */
  function Words(w: nat): (n: nat)
    ensures n > 0
  {
    if w == 0 then 1 else 256 * Words(w - 1)
  }

  function ToBytes(v: nat, w: nat): (b: seq<Byte>)
    ensures |b| == w
  {
    if w == 0 then [] else [v % 256] + ToBytes(v / 256, w - 1)
  }

  function FromBytes(b: seq<Byte>): nat {
    if b == [] then 0 else b[0] + 256 * FromBytes(b[1..])
  }

  /** ckULong: the conversion to the native word must not lose anything; None
      is the panic. */
  function CkULong(v: nat, w: nat): (r: Option<seq<Byte>>)
  {
    var cv := v % Words(w);
    if cv != v then None else Some(ToBytes(cv, w))
  }

  /** BytesToULong: copy into a zeroed word, then read the word. */
  function BytesToULong(b: seq<Byte>, w: nat): nat {
    FromBytes(if |b| <= w then b + Zeros(w - |b|) else b[..w])
  }

  lemma {:induction false} FromToBytes(v: nat, w: nat)
    requires v < Words(w)
    ensures FromBytes(ToBytes(v, w)) == v
  {
    if w > 0 {
      FromToBytes(v / 256, w - 1);
      assert ToBytes(v, w)[1..] == ToBytes(v / 256, w - 1);
    }
  }

  lemma {:induction false} ToFromBytes(b: seq<Byte>)
    ensures FromBytes(b) < Words(|b|) && ToBytes(FromBytes(b), |b|) == b
  {
    if b != [] {
      ToFromBytes(b[1..]);
      assert FromBytes(b) / 256 == FromBytes(b[1..]);
    }
  }

  lemma {:induction false} TrailingZeros(b: seq<Byte>, n: nat)
    ensures FromBytes(b + Zeros(n)) == FromBytes(b)
    decreases |b| + n
  {
    var s := b + Zeros(n);
    if b != [] {
      assert s[1..] == b[1..] + Zeros(n);
      TrailingZeros(b[1..], n);
    } else if n > 0 {
      assert s[1..] == [] + Zeros(n - 1);
      TrailingZeros([], n - 1);
    }
  }

  lemma ModIsIdentity(v: nat, m: nat)
    requires 0 < m
    ensures v % m == v <==> v < m
  {
  }

  /** A value is refused exactly when it does not fit, and otherwise decodes to
      itself. */
  lemma {:induction false} DecodeEncoded(v: nat, w: nat)
    ensures CkULong(v, w).None? <==> v >= Words(w)
    ensures CkULong(v, w).Some? ==> |CkULong(v, w).value| == w && BytesToULong(CkULong(v, w).value, w) == v
  {
    ModIsIdentity(v, Words(w));
    if v < Words(w) {
      FromToBytes(v, w);
      assert ToBytes(v, w) + Zeros(0) == ToBytes(v, w);
    }
  }

  /** Every full-width byte string is the encoding of what it decodes to. */
  lemma {:induction false} EncodeDecoded(b: seq<Byte>)
    ensures CkULong(BytesToULong(b, |b|), |b|) == Some(b)
  {
    ToFromBytes(b);
    ModIsIdentity(FromBytes(b), Words(|b|));
    assert b + Zeros(0) == b;
  }

  /** A shorter value is zero-extended and a longer one cut to one word, so
      the result always fits the word. */
  lemma {:induction false} DecodeAnyLength(b: seq<Byte>, w: nat)
    ensures BytesToULong(b, w) == FromBytes(b[..if |b| <= w then |b| else w])
    ensures BytesToULong(b, w) < Words(w)
  {
    if |b| <= w {
      assert b[..|b|] == b;
      TrailingZeros(b, w - |b|);
      ToFromBytes(b + Zeros(w - |b|));
    } else {
      ToFromBytes(b[..w]);
    }
  }

  /** The low byte comes first. */
  lemma LittleEndian()
    ensures CkULong(0x010203, 4) == Some([3, 2, 1, 0]) && CkULong(0x1_0000_0000, 4) == None
    ensures BytesToULong([3, 2, 1], 8) == 0x010203 && BytesToULong([3, 2, 1, 0, 9], 4) == 0x010203
  {
    assert Words(4) == 0x1_0000_0000;
    assert ToBytes(0x010203, 4) == [3, 2, 1, 0];
    assert [3, 2, 1] + Zeros(5) == [3, 2, 1, 0, 0, 0, 0, 0];
    assert FromBytes([3, 2, 1, 0, 0, 0, 0, 0]) == 0x010203;
    assert [3, 2, 1, 0, 9][..4] == [3, 2, 1, 0] && FromBytes([3, 2, 1, 0]) == 0x010203;
  }
}
