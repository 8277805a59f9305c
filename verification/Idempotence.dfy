/** Translating a translated value changes nothing (cmd/genconst/main.go). */
module Idempotence {
  import opened Text
  import opened TextFields
  import opened Translation
  import opened Meaning
  import opened Preserved
  import opened AllOnesForm

  /** No suffix is left to strip. */
  predicate Fixed(s: string) {
    Strip(s) == s
  }

  lemma StripWordTwice(w: string)
    ensures StripWord(StripWord(w)) == StripWord(w)
  {
    var b := StripWord(w);
    if b != w {
      BodyIsLiteral(w);
      BodyOf(b, []);
      assert b + [] == b;
    }
  }

  lemma {:induction false} StripTwice(s: string)
    ensures Fixed(Strip(s))
    decreases |s|
  {
    if s != [] {
      if !IsWord(s[0]) {
        StripTwice(s[1..]);
        assert ([s[0]] + Strip(s[1..]))[1..] == Strip(s[1..]);
      } else {
        var w, rest := WordParts(s);
        StripHead(w, rest);
        PartOfWord(w);
        StripTwice(rest);
        if rest != [] {
          StripEnds(rest);
        }
        StripHead(StripWord(w), Strip(rest));
        StripWordTwice(w);
      }
    }
  }

  lemma {:induction false} StripShortens(s: string)
    ensures |Strip(s)| <= |s|
    decreases |s|
  {
    if s != [] {
      if !IsWord(s[0]) {
        StripShortens(s[1..]);
      } else {
        var w, rest := WordParts(s);
        StripHead(w, rest);
        StripShortens(rest);
      }
    }
  }

  /** A text is fixed when what a separator parts is fixed, and only then. */
  lemma FixedConcat(a: string, c: char, b: string)
    requires !IsWord(c)
    ensures Fixed(a + ([c] + b)) <==> Fixed(a) && Fixed(b)
  {
    StripConcat(a, c, b);
    StripShortens(a);
    StripShortens(b);
    var s, t := a + ([c] + b), Strip(a) + ([c] + Strip(b));
    if s == t {
      assert |Strip(a)| == |a|;
      assert s[..|a|] == a && t[..|a|] == Strip(a);
      assert s[|a| + 1..] == b && t[|a| + 1..] == Strip(b);
    }
  }

  lemma FixedPair(a: string, b: string)
    requires Fixed(a) && Fixed(b)
    ensures Fixed(a + " | " + b)
  {
    PairShape(a, b);
    FixedConcat([], ' ', b);
    assert [] + ([' '] + b) == [' '] + b;
    FixedConcat([' '], '|', [' '] + b);
    FixedConcat([], '|', [' '] + b);
    assert [] + (['|'] + ([' '] + b)) == ['|'] + ([' '] + b);
    FixedConcat(a, ' ', ['|'] + ([' '] + b));
  }

  lemma PadAtBar(a: string, b: string)
    requires NoBar(a)
    ensures PadBars(a + ("|" + b)) == a + " | " + PadBars(b)
  {
    Assoc(a, "|", b);
    SplitBar(a, b);
    PadBarsJoins(b);
    PadBarsJoins(a + "|" + b);
    assert ([a] + Split(b))[1..] == Split(b);
  }

  lemma PadNoBar(a: string)
    requires NoBar(a)
    ensures PadBars(a) == a
  {
    PadBarsJoins(a);
    SplitHasNoBars(a);
  }

  lemma {:induction false} PadFixed(s: string)
    requires Fixed(s)
    ensures Fixed(PadBars(s))
    decreases |s|
  {
    if NoBar(s) {
      PadNoBar(s);
    } else {
      var a, b := FirstBar(s);
      FixedConcat(a, '|', b);
      PadAtBar(a, b);
      PadFixed(b);
      FixedPair(a, PadBars(b));
    }
  }

  lemma {:induction false} FieldParts(s: string) returns (f: string, rest: string)
    ensures s == f + rest && NoSpace(f) && (rest == [] || IsSpace(rest[0]))
    ensures s != [] && !IsSpace(s[0]) ==> f != []
  {
    if s != [] && !IsSpace(s[0]) {
      f, rest := FieldParts(s[1..]);
      f := [s[0]] + f;
    } else {
      f, rest := [], s;
    }
  }

  lemma {:induction false} NormalFixed(s: string)
    requires Fixed(s)
    ensures Fixed(Normal(s))
    decreases |s|
  {
    if s != [] {
      var f, rest := FieldParts(s);
      if f == [] {
        assert s == [] + ([s[0]] + s[1..]);
        FixedConcat([], s[0], s[1..]);
        NormalFixed(s[1..]);
      } else {
        FieldsHead(f, rest);
        if rest == [] {
          assert f + rest == f;
        } else {
          var tail := rest[1..];
          assert rest == [rest[0]] + tail;
          FixedConcat(f, rest[0], tail);
          NormalFixed(tail);
          NormalCons(f, tail);
          FixedConcat(f, ' ', Normal(tail));
        }
      }
    }
  }

  lemma NormalCons(f: string, tail: string)
    ensures Join([f] + Fields(tail), " ") == if Fields(tail) == [] then f else f + ([' '] + Normal(tail))
  {
    assert ([f] + Fields(tail))[1..] == Fields(tail);
    Assoc(f, " ", Normal(tail));
  }

  // ---- Spacing ----------------------------------------------------------------

  /** A field of a padded text: a bar alone, or without bars. */
  predicate IsField(f: string) {
    f != [] && NoSpace(f) && (f == "|" || NoBar(f))
  }

  predicate AreFields(fs: seq<string>) {
    forall f | f in fs :: IsField(f)
  }

  lemma {:induction false} FieldsShape(s: string)
    requires NoBar(s)
    ensures AreFields(Fields(s))
    decreases |s|
  {
    if s != [] {
      var f, rest := FieldParts(s);
      if f == [] {
        assert s == [s[0]] + s[1..];
        FieldsShape(s[1..]);
      } else {
        FieldsHead(f, rest);
        FieldsShape(rest);
      }
    }
  }

  lemma {:induction false} PaddedFields(s: string)
    ensures AreFields(Fields(PadBars(s)))
    decreases |s|
  {
    if NoBar(s) {
      PadNoBar(s);
      FieldsShape(s);
    } else {
      var a, b := FirstBar(s);
      PadAtBar(a, b);
      FieldsOfPair(a, PadBars(b));
      FieldsShape(a);
      PaddedFields(b);
    }
  }

  lemma {:induction false} PadConcat(a: string, b: string)
    ensures PadBars(a + b) == PadBars(a) + PadBars(b)
  {
    if a == [] {
      assert a + b == b;
    } else {
      assert (a + b)[1..] == a[1..] + b;
      PadConcat(a[1..], b);
    }
  }

  lemma FieldsOfField(f: string)
    requires IsField(f)
    ensures Fields(PadBars(f)) == [f]
  {
    if f == "|" {
      assert PadBars(f) == [' '] + (['|'] + ([' '] + []));
      FieldsConcat([], ' ', ['|'] + ([' '] + []));
      FieldsConcat(['|'], ' ', []);
      FieldsOne(['|']);
      assert [] + PadBars(f) == PadBars(f);
    } else {
      PadNoBar(f);
      FieldsOne(f);
    }
  }

  /** Padding the bars of padded fields again adds no field. */
  lemma {:induction false} FieldsStay(fs: seq<string>)
    requires AreFields(fs)
    ensures Fields(PadBars(Join(fs, " "))) == fs
  {
    if fs != [] {
      FieldsOfField(fs[0]);
      if |fs| == 1 {
        assert fs == [fs[0]];
      } else {
        var rest := Join(fs[1..], " ");
        FieldsStay(fs[1..]);
        Assoc(fs[0], " ", rest);
        PadConcat(fs[0], [' '] + rest);
        PadConcat([' '], rest);
        FieldsConcat(PadBars(fs[0]), ' ', PadBars(rest));
      }
    }
  }

  lemma {:induction false} JoinSolid(fs: seq<string>)
    requires fs != [] && AreFields(fs)
    ensures var x := Join(fs, " "); Solid(x) && x[0] == fs[0][0]
  {
    assert IsField(fs[0]) && fs[0][0] in fs[0] && fs[0][|fs[0]| - 1] in fs[0];
    if |fs| > 1 {
      JoinSolid(fs[1..]);
    }
  }

  lemma BarIsField(s: string)
    requires '|' in s
    ensures "|" in Fields(PadBars(s))
  {
    var a, b := FirstBar(s);
    PadAtBar(a, b);
    FieldsOfPair(a, PadBars(b));
  }

  lemma FirstOfFields(t: string)
    requires t != [] && !IsSpace(t[0])
    ensures Fields(t)[0][0] == t[0]
  {
  }

  /** What tidying makes of a stripped value. */
  lemma TidiedShape(s: string)
    requires s != [] && s[0] == '(' && '|' in s
    ensures var x := Tidied(s); Solid(x) && x[0] == '(' && '|' in x
  {
    var fs := Fields(PadBars(s));
    PaddedFields(s);
    BarIsField(s);
    FirstOfFields(PadBars(s));
    JoinSolid(fs);
    JoinHas(fs, " ", "|", '|');
  }

  lemma TidiedTwice(s: string)
    requires Fixed(s) && s != [] && s[0] == '(' && '|' in s
    ensures Fixed(Tidied(s)) && Tidied(Tidied(s)) == Tidied(s)
  {
    TidiedShape(s);
    PadFixed(s);
    NormalFixed(PadBars(s));
    PaddedFields(s);
    FieldsStay(Fields(PadBars(s)));
  }

  lemma BarIsNotAllOnes(v: string)
    requires '|' in v
    ensures !IsAllOnes(v)
  {
    StripHas(v, '|');
    FieldsSqueezed(Strip(v));
    SqueezeHas(Strip(v), '|');
  }

  lemma TrimOfSolid(s: string)
    requires s == [] || Solid(s)
    ensures TrimSpace(s) == s
  {
    if s != [] {
      assert PaddedBy(s, [], s, []);
      TrimSolid(s, s);
    }
  }

  lemma StrippedAgain(v: string)
    requires (v == [] || Solid(v)) && !IsAllOnes(v)
    ensures var s := Strip(v); Fixed(s) && (s == [] || Solid(s)) && !IsAllOnes(s)
  {
    StripTwice(v);
    if v != [] {
      StripEnds(v);
    }
  }

  lemma FixedCall(f: string, arg: string)
    requires Fixed(f) && Fixed(arg)
    ensures Fixed(['^'] + (f + (['('] + (arg + ([')'] + [])))))
  {
    FixedConcat(arg, ')', []);
    FixedConcat(f, '(', arg + ([')'] + []));
    var tail := f + (['('] + (arg + ([')'] + [])));
    FixedConcat([], '^', tail);
    assert [] + (['^'] + tail) == ['^'] + tail;
  }

  lemma FixedWord(w: string)
    requires w != [] && AllWord(w) && StripWord(w) == w
    ensures Fixed(w)
  {
    StripOne(w);
  }

  lemma CaretFixed()
    ensures Fixed(Caret)
  {
    FixedWord("uint");
    FixedWord("0");
    FixedCall("uint", "0");
    assert Caret == ['^'] + ("uint" + (['('] + ("0" + ([')'] + []))));
  }

  lemma CaretIsNotAllOnes()
    ensures !IsAllOnes(Caret)
  {
    CaretFixed();
    NotAllOnes(Caret);
  }

  lemma CaretStays()
    ensures TranslateValue(Caret) == Caret
  {
    CaretTerm();
    CaretFixed();
    CaretIsNotAllOnes();
  }

  /** translate of a name that is no boolean constant is idempotent. */
  lemma TranslateTwice(name: string, raw: string)
    requires name != "CK_TRUE" && name != "CK_FALSE"
    ensures Translate(name, Translate(name, raw)) == Translate(name, raw)
  {
    var v := TrimSpace(raw);
    var l, r := TrimParts(raw);
    if IsAllOnes(v) {
      CaretStays();
    } else {
      StrippedAgain(v);
      var s := Strip(v);
      var x := Tidied(s);
      if s != [] && s[0] == '(' && '|' in s {
        TidiedTwice(s);
        TidiedShape(s);
        BarIsNotAllOnes(x);
      }
      TrimOfSolid(x);
    }
  }
}
