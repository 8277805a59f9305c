/** Translation preserves meaning (cmd/genconst/main.go). */
module Preserved {
  import opened Common
  import opened Text
  import opened TextFields
  import opened Translation
  import opened Numbers
  import opened Expressions
  import opened Meaning

  lemma {:induction false} JoinLacks(parts: seq<string>, sep: string, c: char)
    requires c !in sep && forall p | p in parts :: c !in p
    ensures c !in Join(parts, sep)
  {
    if parts != [] {
      assert parts[0] in parts;
      JoinLacks(parts[1..], sep, c);
    }
  }

  /** Terms hold word characters and white space only. */
  lemma TermsLack(parts: seq<string>, terms: seq<Term>, c: char)
    requires Holds(parts, terms) && !IsSpace(c) && !IsWord(c) && c != '|'
    ensures c !in Join(parts, "|")
  {
    forall p | p in parts ensures c !in p {
      var i :| 0 <= i < |parts| && parts[i] == p;
      PlainTerm(terms[i]);
      var l, r := TrimParts(p);
    }
    JoinLacks(parts, "|", c);
  }

  lemma NotAllOnes(v: string)
    requires '~' !in Strip(v)
    ensures !IsAllOnes(v)
  {
    FieldsSqueezed(Strip(v));
    SqueezeHas(Strip(v), '~');
    assert "(~0)"[1] == '~';
  }

  // ---- The shapes ------------------------------------------------------------

  lemma BareIsStripped(raw: string, parts: seq<string>, terms: seq<Term>)
    requires WritesBare(raw, parts, terms)
    ensures var s := Join(Strips(parts), "|");
            TranslateValue(raw) == s && Solid(s) && s[0] != '('
  {
    var v := Join(parts, "|");
    var s := Join(Strips(parts), "|");
    TrimSolid(raw, v);
    StripParts(parts, terms);
    StripJoin(parts);
    TermsLack(Strips(parts), terms, '~');
    TermsLack(Strips(parts), terms, '(');
    NotAllOnes(v);
    StripEnds(v);
    assert s[0] in s;
  }

  lemma BareCarries(raw: string, parts: seq<string>, terms: seq<Term>)
    requires WritesBare(raw, parts, terms)
    ensures Carries(TranslateValue(raw), terms) && Solid(TranslateValue(raw))
  {
    BareIsStripped(raw, parts, terms);
    var s := Join(Strips(parts), "|");
    assert PaddedBy(s, [], s, []);
    TrimSolid(s, s);
    StripParts(parts, terms);
    SplitJoin(Strips(parts));
  }

  lemma ParenIsStripped(raw: string, parts: seq<string>, terms: seq<Term>)
    requires WritesParen(raw, parts, terms)
    ensures Holds(Strips(parts), terms)
    ensures TranslateValue(raw) == Tidied(InParens(Join(Strips(parts), "|")))
  {
    var v := InParens(Join(parts, "|"));
    InnerOfParens(Join(parts, "|"));
    TrimSolid(raw, v);
    StripParts(parts, terms);
    StripJoin(parts);
    StripParens(Join(parts, "|"));
    TermsLack(Strips(parts), terms, '~');
    NotAllOnes(v);
  }

  lemma ParenCarries(raw: string, parts: seq<string>, terms: seq<Term>)
    requires WritesParen(raw, parts, terms)
    ensures Carries(TranslateValue(raw), terms) && Solid(TranslateValue(raw))
  {
    var after := Strips(parts);
    ParenIsStripped(raw, parts, terms);
    if |after| == 1 {
      assert NoBar(after[0]);
      InnerOfParens(after[0]);
      assert NoBar(InParens(after[0]));
      SplitJoin(after);
    } else {
      TidyCarries(after, terms);
    }
  }

  // ---- Tidying -----------------------------------------------------------------------

  function Front(left: string, parts: seq<string>): seq<string>
    requires parts != []
  {
    [left + parts[0]] + parts[1..]
  }

  function Back(parts: seq<string>, right: string): seq<string>
    requires parts != []
  {
    parts[..|parts| - 1] + [parts[|parts| - 1] + right]
  }

  function Ends(parts: seq<string>): seq<string>
    requires parts != []
  {
    Front(['('], Back(parts, [')']))
  }

  lemma JoinFront(left: string, parts: seq<string>, sep: string)
    requires parts != []
    ensures Join(Front(left, parts), sep) == left + Join(parts, sep)
  {
    assert Front(left, parts)[1..] == parts[1..];
    if |parts| > 1 {
      Assoc(left, parts[0], sep);
      Assoc(left, parts[0] + sep, Join(parts[1..], sep));
    }
  }

  lemma {:induction false} JoinBack(parts: seq<string>, right: string, sep: string)
    requires parts != []
    ensures Join(Back(parts, right), sep) == Join(parts, sep) + right
  {
    if |parts| > 1 {
      JoinBack(parts[1..], right, sep);
      assert Back(parts, right)[1..] == Back(parts[1..], right);
      Assoc(parts[0] + sep, Join(parts[1..], sep), right);
    }
  }

  lemma JoinEnds(parts: seq<string>, sep: string)
    requires parts != []
    ensures Join(Ends(parts), sep) == InParens(Join(parts, sep))
  {
    JoinFront(['('], Back(parts, [')']), sep);
    JoinBack(parts, [')'], sep);
  }

  lemma PadJoined(parts: seq<string>)
    requires parts != [] && forall p | p in parts :: NoBar(p)
    ensures PadBars(Join(parts, "|")) == Join(parts, " | ")
  {
    PadBarsJoins(Join(parts, "|"));
    SplitJoin(parts);
  }

  lemma OneWord(parts: seq<string>, terms: seq<Term>, i: nat)
    requires Holds(parts, terms) && i < |parts|
    ensures TrimSpace(parts[i]) == Plain(terms[i]) != [] && NoSpace(TrimSpace(parts[i])) && NoBar(parts[i])
    ensures Fields(parts[i]) != [] && Normal(parts[i]) == TrimSpace(parts[i])
    ensures NoBar(TrimSpace(parts[i])) && TrimSpace(TrimSpace(parts[i])) == Plain(terms[i])
  {
    PlainTerm(terms[i]);
    NormalOfWord(parts[i]);
  }

  lemma EndsAt(parts: seq<string>, i: nat)
    requires |parts| > 1 && i < |parts|
    ensures |Ends(parts)| == |parts|
    ensures Ends(parts)[i] ==
            if i == 0 then ['('] + parts[0] else if i == |parts| - 1 then parts[i] + [')'] else parts[i]
  {
  }

  /** The parts without white space, but for one space at either end of the
      whole where there was some. */
  function Spaced(parts: seq<string>): seq<string>
    requires |parts| > 1
  {
    seq(|parts|, i requires 0 <= i < |parts| =>
      if i == 0 then AfterParen(parts[0])
      else if i == |parts| - 1 then BeforeParen(parts[i])
      else TrimSpace(parts[i]))
  }

  lemma SpacedAt(parts: seq<string>, terms: seq<Term>, i: nat)
    requires Holds(parts, terms) && |parts| > 1 && i < |parts|
    ensures TrimSpace(Spaced(parts)[i]) == Plain(terms[i]) && NoBar(Spaced(parts)[i])
    ensures Fields(Ends(parts)[i]) != [] && Normal(Ends(parts)[i]) == Ends(Spaced(parts))[i]
  {
    OneWord(parts, terms, i);
    EndsAt(parts, i);
    EndsAt(Spaced(parts), i);
    if i == 0 {
      NormalAfterParen(parts[0]);
    } else if i == |parts| - 1 {
      NormalBeforeParen(parts[i]);
    }
  }

  /** Tidying keeps the terms and puts one space where spaces were. */
  lemma Tidy(parts: seq<string>, terms: seq<Term>)
    requires Holds(parts, terms) && |parts| > 1
    ensures Holds(Spaced(parts), terms)
    ensures NoneBlank(Ends(parts)) && Normals(Ends(parts)) == Ends(Spaced(parts))
  {
    EndsAt(parts, 0);
    EndsAt(Spaced(parts), 0);
    forall i | 0 <= i < |parts|
      ensures TrimSpace(Spaced(parts)[i]) == Plain(terms[i]) && NoBar(Spaced(parts)[i])
      ensures Fields(Ends(parts)[i]) != [] && Normal(Ends(parts)[i]) == Ends(Spaced(parts))[i]
    {
      SpacedAt(parts, terms, i);
    }
  }

  lemma EndsHaveNoBars(parts: seq<string>)
    requires |parts| > 1 && forall p | p in parts :: NoBar(p)
    ensures forall p | p in Ends(parts) :: NoBar(p)
  {
    forall p | p in Ends(parts) ensures NoBar(p) {
      var i :| 0 <= i < |Ends(parts)| && Ends(parts)[i] == p;
      EndsAt(parts, i);
      assert NoBar(parts[i]);
    }
  }

  lemma Tidying(parts: seq<string>, terms: seq<Term>)
    requires Holds(parts, terms) && |parts| > 1
    ensures Holds(Spaced(parts), terms)
    ensures Normal(PadBars(InParens(Join(parts, "|")))) == InParens(Join(Spaced(parts), " | "))
  {
    JoinEnds(parts, "|");
    EndsHaveNoBars(parts);
    PadJoined(Ends(parts));
    Tidy(parts, terms);
    NormalOfJoined(Ends(parts));
    JoinEnds(Spaced(parts), " | ");
  }

  lemma BarInside(parts: seq<string>, terms: seq<Term>)
    requires Holds(parts, terms) && |parts| > 1
    ensures '|' in InParens(Join(parts, "|"))
  {
    SplitJoin(parts);
    SplitHasNoBars(Join(parts, "|"));
    assert '|' in Join(parts, "|");
  }

  lemma TidyCarries(parts: seq<string>, terms: seq<Term>)
    requires Holds(parts, terms) && |parts| > 1
    ensures '|' in InParens(Join(parts, "|"))
    ensures Carries(Normal(PadBars(InParens(Join(parts, "|")))), terms)
    ensures Solid(Normal(PadBars(InParens(Join(parts, "|")))))
  {
    BarInside(parts, terms);
    Tidying(parts, terms);
    InnerOfParens(Join(Spaced(parts), " | "));
    SplitJoined(Spaced(parts));
  }

  // ---- The theorem -------------------------------------------------------------------

  /** For every way to write an or of literals and names, the translated value
      evaluates to the C value, and to nothing exactly when C knows no value. */
  lemma TermsPreserved(raw: string, e: Expr, env: Env)
    requires Writes(raw, e) && !e.AllOnes?
    ensures EvalTerms(Split(Inner(TranslateValue(raw))), env) == COr(e.terms, env)
  {
    match e {
      case Bare(terms) =>
        var parts :| WritesBare(raw, parts, terms);
        BareCarries(raw, parts, terms);
      case Paren(terms) =>
        var parts :| WritesParen(raw, parts, terms);
        ParenCarries(raw, parts, terms);
    }
    TermsValue(Split(Inner(TranslateValue(raw))), e.terms, env);
  }

  function Plains(terms: seq<Term>): (r: seq<string>)
    ensures |r| == |terms|
  {
    seq(|terms|, i requires 0 <= i < |terms| => Plain(terms[i]))
  }

  lemma SpacedIs(parts: seq<string>, terms: seq<Term>)
    requires Holds(parts, terms) && |parts| > 1
    ensures Spaced(parts) == Front(Lead(parts[0]), Back(Plains(terms), Trail(parts[|parts| - 1])))
  {
  }

  lemma StripKeepsSpace(s: string)
    ensures Lead(Strip(s)) == Lead(s) && Trail(Strip(s)) == Trail(s)
  {
    if s != [] {
      StripEnds(s);
    }
  }

  /** The exact text that a parenthesised or of several terms becomes: the terms
      without their suffixes, one space on each side of a bar, and one space where
      white space stood at a parenthesis. */
  lemma TidiedText(raw: string, parts: seq<string>, terms: seq<Term>)
    requires WritesParen(raw, parts, terms) && |terms| > 1
    ensures TranslateValue(raw) ==
            InParens(Lead(parts[0]) + (Join(Plains(terms), " | ") + Trail(parts[|parts| - 1])))
  {
    var after := Strips(parts);
    var left, right := Lead(parts[0]), Trail(parts[|parts| - 1]);
    ParenIsStripped(raw, parts, terms);
    BarInside(after, terms);
    Tidying(after, terms);
    SpacedIs(after, terms);
    StripKeepsSpace(parts[0]);
    StripKeepsSpace(parts[|parts| - 1]);
    JoinBack(Plains(terms), right, " | ");
    JoinFront(left, Back(Plains(terms), right), " | ");
  }

  // ---- The all-ones word ----------------------------------------------------------------

  lemma AllOnesFound(raw: string, a: string, b: string, c: string, suffix: string)
    requires WritesAllOnes(raw, a, b, c, suffix)
    ensures IsAllOnes(TrimSpace(raw)) && TranslateValue(raw) == "^uint(0)"
  {
    var word := ['0'] + suffix;
    var spaced := b + word + c;
    var inner := a + (['~'] + spaced);
    InnerOfParens(inner);
    TrimSolid(raw, InParens(inner));
    assert IsLiteral(['0']);
    BodyOf(['0'], suffix);
    StripSpaced(b, word, c);
    StripConcat(a, '~', spaced);
    SpaceStays(a, []);
    assert Strip(a) == a by { assert a + [] == a; }
    StripParens(inner);
    var stripped := InParens(a + (['~'] + (b + ['0'] + c)));
    assert Strip(InParens(inner)) == stripped;
    SqueezeAllOnes(a, b, c);
    FieldsSqueezed(stripped);
  }

  lemma SqueezeAllOnes(a: string, b: string, c: string)
    requires AllSpace(a) && AllSpace(b) && AllSpace(c)
    ensures Squeeze(InParens(a + (['~'] + (b + ['0'] + c)))) == "(~0)"
  {
    SqueezeSpace(a);
    SqueezeSpace(b);
    SqueezeSpace(c);
    SqueezeConcat(b, ['0']);
    SqueezeConcat(b + ['0'], c);
    SqueezeConcat(['~'], b + ['0'] + c);
    SqueezeConcat(a, ['~'] + (b + ['0'] + c));
    var m := a + (['~'] + (b + ['0'] + c));
    SqueezeConcat(m, [')']);
    SqueezeConcat(['('], m + [')']);
  }

  const Caret: string := "^uint(0)"

  lemma CaretTerm()
    ensures Split(Inner(Caret)) == [Caret] && TrimSpace(Caret) == Caret && !IsWord(Caret[0])
  {
    OneTerm(Caret);
  }

  lemma OneTerm(v: string)
    requires Solid(v) && NoBar(v) && v[0] != '('
    ensures Split(Inner(v)) == [v] && TrimSpace(v) == v
  {
    assert PaddedBy(v, [], v, []);
    TrimSolid(v, v);
    SplitHasNoBars(v);
  }
}
