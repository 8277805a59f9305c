/** Which values become the all-ones word (cmd/genconst/main.go). */
module AllOnesForm {
  import opened Text
  import opened TextFields
  import opened Translation
  import opened Meaning
  import opened Preserved

  lemma FirstOf(s: string, c: char) returns (a: string, b: string)
    requires c in s
    ensures s == a + ([c] + b) && c !in a
  {
    if s[0] == c {
      a, b := [], s[1..];
    } else {
      a, b := FirstOf(s[1..], c);
      a := [s[0]] + a;
    }
  }

  /** Stripping keeps every character that is no word character, in place. */
  lemma {:induction false} StripHas(s: string, c: char)
    requires !IsWord(c)
    ensures c in Strip(s) <==> c in s
    decreases |s|
  {
    if s != [] {
      if !IsWord(s[0]) {
        StripHas(s[1..], c);
        assert s == [s[0]] + s[1..];
      } else {
        var w, rest := WordParts(s);
        StripHead(w, rest);
        PartOfWord(w);
        StripHas(rest, c);
      }
    }
  }

  lemma {:induction false} SqueezedAway(s: string)
    requires Squeeze(s) == []
    ensures AllSpace(s)
  {
    if s != [] {
      SqueezedAway(s[1..]);
      assert s == [s[0]] + s[1..];
    }
  }

  lemma StrippedToSpace(s: string)
    requires Squeeze(Strip(s)) == []
    ensures AllSpace(s)
  {
    SqueezedAway(Strip(s));
    forall c | c in s ensures IsSpace(c) {
      if IsWord(c) {
        WordSurvives(s, c);
      } else {
        StripHas(s, c);
      }
    }
  }

  lemma {:induction false} WordSurvives(s: string, c: char)
    requires c in s && IsWord(c)
    ensures exists d | d in Strip(s) :: IsWord(d)
    decreases |s|
  {
    if !IsWord(s[0]) {
      assert s == [s[0]] + s[1..];
      WordSurvives(s[1..], c);
      var d :| d in Strip(s[1..]) && IsWord(d);
      assert d in Strip(s);
    } else {
      StripEnds(s);
      assert Strip(s)[0] in Strip(s);
    }
  }

  lemma Meets(p: string, c: char, q: string)
    ensures var s := p + ([c] + q); s[|p|] == c && forall i | 0 <= i < |p| :: s[i] == p[i] && p[i] in p
  {
  }

  lemma NothingBefore(p: string, c: char, q: string, tail: string)
    requires c !in p && p + ([c] + q) == [c] + tail
    ensures p == [] && q == tail
  {
    Meets(p, c, q);
    assert (p + ([c] + q))[0] == c;
    assert p + ([c] + q) == [c] + q;
    assert q == ([c] + q)[1..] && tail == ([c] + tail)[1..];
  }

  /** Where stripped and squeezed text starts with c, so does the text. */
  lemma CutAt(s: string, c: char, tail: string) returns (a: string, b: string)
    requires !IsWord(c) && !IsSpace(c)
    requires Squeeze(Strip(s)) == [c] + tail
    ensures s == a + ([c] + b) && AllSpace(a) && Squeeze(Strip(b)) == tail
  {
    assert ([c] + tail)[0] == c;
    SqueezeHas(Strip(s), c);
    StripHas(s, c);
    a, b := FirstOf(s, c);
    StripConcat(a, c, b);
    SqueezeConcat(Strip(a), [c] + Strip(b));
    SqueezeConcat([c], Strip(b));
    StripHas(a, c);
    SqueezeHas(Strip(a), c);
    var p := Squeeze(Strip(a));
    assert p + ([c] + Squeeze(Strip(b))) == [c] + tail;
    NothingBefore(p, c, Squeeze(Strip(b)), tail);
    StrippedToSpace(a);
  }

  lemma OneLeft(s: string)
    requires Solid(s)
    ensures |s| > 1 ==> |Squeeze(s)| > 1
  {
    if |s| > 1 {
      var n := |s| - 1;
      assert s == [s[0]] + (s[1..n] + [s[n]]);
      SqueezeConcat([s[0]], s[1..n] + [s[n]]);
      SqueezeConcat(s[1..n], [s[n]]);
      assert Squeeze([s[0]]) == [s[0]] && Squeeze([s[n]]) == [s[n]];
    }
  }

  lemma SpaceAround(l: string, t: string, r: string)
    requires AllSpace(l) && AllSpace(r)
    ensures Squeeze(Strip(l + t + r)) == Squeeze(Strip(t))
  {
    Assoc(l, t, r);
    SpaceStays(l, t + r);
    SqueezeConcat(l, Strip(t + r));
    SqueezeSpace(l);
    if r == [] {
      assert t + r == t;
    } else {
      assert r[0] in r && !IsWord(r[0]) && r == [r[0]] + r[1..];
      StripConcat(t, r[0], r[1..]);
      SpaceStays(r, []);
      assert r + [] == r;
      SpaceStays(r[1..], []);
      assert r[1..] + [] == r[1..];
      SqueezeConcat(Strip(t), r);
      SqueezeSpace(r);
    }
  }

  lemma ZeroWord(t: string) returns (suffix: string)
    requires Strip(t) == ['0']
    ensures t == ['0'] + suffix && AllSuffix(suffix)
  {
    StripEnds(t);
    var w, rest := WordParts(t);
    StripHead(w, rest);
    PartOfWord(w);
    if rest != [] {
      StripEnds(rest);
    }
    assert t == w && w[0] == '0';
    suffix := w[1..];
    assert |StripWord(w)| == 1;
  }

  /** Text that strips to a zero is a zero with a suffix. */
  lemma SpacedZero(m: string) returns (b: string, suffix: string, c: string)
    requires Squeeze(Strip(m)) == ['0']
    ensures m == b + (['0'] + suffix) + c && AllSpace(b) && AllSpace(c) && AllSuffix(suffix)
  {
    b, c := TrimParts(m);
    var t := TrimSpace(m);
    SpaceAround(b, t, c);
    assert t != [];
    StripEnds(t);
    var s := Strip(t);
    assert Solid(s);
    OneLeft(s);
    assert s == [s[0]] && Squeeze(s) == s;
    suffix := ZeroWord(t);
  }

  lemma ZeroBeforeParen(s: string) returns (m: string, after: string)
    requires Squeeze(Strip(s)) == ['0'] + [')']
    ensures s == m + ([')'] + after) && AllSpace(after) && Squeeze(Strip(m)) == ['0']
  {
    assert (['0'] + [')'])[1] == ')';
    SqueezeHas(Strip(s), ')');
    StripHas(s, ')');
    m, after := FirstOf(s, ')');
    StripConcat(m, ')', after);
    SqueezeConcat(Strip(m), [')'] + Strip(after));
    SqueezeConcat([')'], Strip(after));
    StripHas(m, ')');
    SqueezeHas(Strip(m), ')');
    var p, q := Squeeze(Strip(m)), Squeeze(Strip(after));
    assert p + ([')'] + q) == ['0'] + [')'];
    Meets(p, ')', q);
    assert |p| == 1;
    StrippedToSpace(after);
  }

  /** A value becomes the all-ones word exactly when it is written as one. */
  lemma AllOnesExactly(raw: string)
    ensures IsAllOnes(TrimSpace(raw)) <==> exists suffix :: Writes(raw, AllOnes(suffix))
  {
    if IsAllOnes(TrimSpace(raw)) {
      var suffix := AllOnesWritten(raw);
    }
    forall suffix | Writes(raw, AllOnes(suffix)) ensures IsAllOnes(TrimSpace(raw)) {
      var a, b, c :| WritesAllOnes(raw, a, b, c, suffix);
      AllOnesFound(raw, a, b, c, suffix);
    }
  }

  /** The pieces of a value that collapses to (~0). */
  lemma Pieces(v: string) returns (none: string, a: string, m: string, after: string)
    requires IsAllOnes(v)
    ensures v == none + (['('] + (a + (['~'] + (m + ([')'] + after)))))
    ensures AllSpace(none) && AllSpace(a) && AllSpace(after) && Squeeze(Strip(m)) == ['0']
  {
    FieldsSqueezed(Strip(v));
    assert "(~0)" == ['('] + "~0)" && "~0)" == ['~'] + (['0'] + [')']);
    var b1, b2;
    none, b1 := CutAt(v, '(', "~0)");
    a, b2 := CutAt(b1, '~', ['0'] + [')']);
    m, after := ZeroBeforeParen(b2);
  }

  lemma AllOnesWritten(raw: string) returns (suffix: string)
    requires IsAllOnes(TrimSpace(raw))
    ensures Writes(raw, AllOnes(suffix))
  {
    var l, r := TrimParts(raw);
    var none, a, m, after := Pieces(TrimSpace(raw));
    Reassociate(l, none, a, m, after, r);
    assert PaddedBy(raw, l + none, InParens(a + (['~'] + m)), after + r);
    var b, c;
    b, suffix, c := SpacedZero(m);
    assert WritesAllOnes(raw, a, b, c, suffix);
  }

  lemma Reassociate(l: string, none: string, a: string, m: string, after: string, r: string)
    ensures l + (none + (['('] + (a + (['~'] + (m + ([')'] + after)))))) + r
         == (l + none) + InParens(a + (['~'] + m)) + (after + r)
  {
    var x := a + (['~'] + m);
    Assoc(['~'], m, [')'] + after);
    Assoc(a, ['~'] + m, [')'] + after);
    Assoc(x, [')'], after);
    Assoc(['('], x + [')'], after);
    Assoc(none, InParens(x), after);
    Assoc(l, none + InParens(x), after);
    Assoc(l, none, InParens(x));
    Assoc(l + none + InParens(x), after, r);
  }
}
